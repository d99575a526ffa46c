/**
 * The process state of the HTTP gateway and the handlers that change or read
 * it: the worker list refreshed from the broker's consumers, the reply
 * handler writing task status into Redis, the `/status` poll and the
 * `/submit` publish.
 */
module Gateway {
  import opened Wrappers
  import opened Text
  import opened Redis
  import opened Workers
  import opened Replies

  /** The work queue jobs are published to. */
  const QUEUE := "maxfield-task"
  /** The broker's direct reply address every job names as its return channel. */
  const REPLY_TO := "amq.rabbitmq.reply-to"
  const SUBMITS_COUNTER := "status.submits"

  /** The fields of a `/submit` request body the handler forwards. */
  datatype SubmitBody = SubmitBody(agents: int, googlemap: bool, portals: seq<string>, faction: string)

  /** The job message sent to the workers; note the field is `portal`. */
  datatype Job = Job(agents: int, googlemap: bool, portal: seq<string>, faction: string)

  /** One `sendToQueue` call: queue, payload and the correlation properties. */
  datatype Publication = Publication(queue: string, job: Job, correlationId: string, replyTo: string)

  datatype SubmitResponse =
    | CaptchaRejected                            // {error: true, desc: "CAPTCHA"}
    | Submitted(submitid: string, inqueue: nat)  // {error: false, submitid, inqueue}

  datatype StatusResponse =
    | StatusReply(data: seq<Option<string>>, expire: seq<Option<string>>)  // {error: false, data, expire}
    | StatusFailed                                                         // the transaction was refused

  function JobOf(body: SubmitBody): Job {
    Job(body.agents, body.googlemap, body.portals, body.faction)
  }

  /** The `forEach`/`push` loop of `/status`: each task id with ".created" appended. */
  method CreatedKeys(tasks: seq<string>) returns (created: seq<string>)
    ensures |created| == |tasks|
    ensures forall i :: 0 <= i < |tasks| ==> created[i] == CreatedKey(tasks[i])
  {
    created := [];
    var i := 0;
    while i < |tasks|
      invariant 0 <= i <= |tasks|
      invariant |created| == i
      invariant forall j :: 0 <= j < i ==> created[j] == CreatedKey(tasks[j])
    {
      created := created + [tasks[i] + CREATED_SUFFIX];
      i := i + 1;
    }
  }

  class Gateway {
    /** The Redis client's database. */
    const store: Store
    /** The global `nodelist`. */
    var nodelist: seq<Worker>
    /** Every job sent to the work queue, oldest first. */
    var published: seq<Publication>

    constructor ()
      ensures fresh(store)
      ensures store.entries == map[] && store.counters == map[]
      ensures nodelist == [] && published == []
    {
      store := new Store();
      nodelist := [];
      published := [];
    }

    /**
     * The `refreshWorkers` callback on a decoded consumer list: the old list
     * is discarded and one worker per consumer is appended, in order.
     */
    method RefreshWorkers(consumerTags: seq<string>)
      modifies this
      ensures |nodelist| == |consumerTags|
      ensures forall i :: 0 <= i < |consumerTags| ==> nodelist[i] == ParseTag(consumerTags[i])
      ensures published == old(published)
    {
      nodelist := [];
      var i := 0;
      while i < |consumerTags|
        invariant 0 <= i <= |consumerTags|
        invariant |nodelist| == i
        invariant forall j :: 0 <= j < i ==> nodelist[j] == ParseTag(consumerTags[j])
        invariant published == old(published)
      {
        var nodeinfo := Split(consumerTags[i], ':');
        nodelist := nodelist + [Worker(nodeinfo[0], if |nodeinfo| > 1 then Some(nodeinfo[1]) else None)];
        i := i + 1;
      }
    }

    /**
     * `getReply`: the Redis commands the handler issues, in its order, for a
     * reply with correlation id `id`, tag `node` and flag `status` at `now`.
     */
    method HandleReply(id: string, node: string, status: Option<bool>, now: nat)
      modifies store
      ensures Db(store.entries, store.counters)
           == ApplyReply(Db(old(store.entries), old(store.counters)), id, node, status, now)
    {
      ghost var db := Db(store.entries, store.counters);
      ghost var deadline := Some(Deadline(now));
      if EndsWith(node, PROCESSING_SUFFIX) {
        store.Set(id, node);
        assert Classify(node, status) == Processing;
      } else {
        var value := node;
        if status == Some(false) {
          value := FAILED;
        } else {
          store.Set(id + CREATED_SUFFIX, NatToDecimal(now));
          store.Expire(id + CREATED_SUFFIX, TTL_SECONDS, now);
          var _ := store.Incr(SUCCESS_COUNTER);
          assert store.entries == db.entries[CreatedKey(id) := Entry(NatToDecimal(now), deadline)];
        }
        store.Set(id, value);
        store.Expire(id, TTL_SECONDS, now);
        if status == Some(false) {
          assert Classify(node, status) == Failed;
          assert store.entries == db.entries[id := Entry(FAILED, deadline)];
        } else {
          assert Classify(node, status) == Succeeded;
          assert store.entries
              == db.entries[CreatedKey(id) := Entry(NatToDecimal(now), deadline)][id := Entry(node, deadline)];
        }
      }
    }

    /**
     * `/status`: two MGETs in one transaction, on the task ids and on their
     * ".created" keys; each answer lines up with the task at the same position.
     */
    method Status(tasks: seq<string>, now: nat) returns (response: StatusResponse)
      ensures tasks == [] <==> response == StatusFailed
      ensures response.StatusReply? ==>
        && |response.data| == |tasks| && |response.expire| == |tasks|
        && (forall i :: 0 <= i < |tasks| ==> response.data[i] == Lookup(store.entries, tasks[i], now))
        && (forall i :: 0 <= i < |tasks| ==> response.expire[i] == Lookup(store.entries, CreatedKey(tasks[i]), now))
    {
      var createdList := CreatedKeys(tasks);
      var data := MGet(store.entries, tasks, now);
      var expire := MGet(store.entries, createdList, now);
      if data.Some? && expire.Some? {
        response := StatusReply(data.value, expire.value);
      } else {
        response := StatusFailed;
      }
    }

    /**
     * `/submit` once the CAPTCHA middleware has run: a CAPTCHA error returns
     * before anything is published or counted; otherwise the job goes to the
     * work queue under `taskId` and the submission counter goes up by one.
     * `taskId` stands for `randomid()` and `inqueue` for the queue depth
     * `assertQueue` reports.
     */
    method Submit(body: SubmitBody, captchaError: bool, taskId: string, inqueue: nat)
      returns (response: SubmitResponse)
      modifies this, store
      ensures captchaError ==>
        && response == CaptchaRejected
        && published == old(published)
        && store.counters == old(store.counters)
      ensures !captchaError ==>
        && response == Submitted(taskId, inqueue)
        && published == old(published) + [Publication(QUEUE, JobOf(body), taskId, REPLY_TO)]
        && store.counters == old(store.counters)[SUBMITS_COUNTER := old(CounterValue(store.counters, SUBMITS_COUNTER)) + 1]
      ensures store.entries == old(store.entries)
      ensures nodelist == old(nodelist)
    {
      if captchaError {
        return CaptchaRejected;
      }
      published := published + [Publication(QUEUE, JobOf(body), taskId, REPLY_TO)];
      response := Submitted(taskId, inqueue);
      var _ := store.Incr(SUBMITS_COUNTER);
    }
  }
}
