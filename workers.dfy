/**
 * Worker records as the registry refresh builds them from the broker's
 * consumer list: each consumer tag is read as `name:cores`.
 */
module Workers {
  import opened Wrappers
  import opened Text

  /** `{name, cores}`; `cores` stays text and is absent when the tag has no ':'. */
  datatype Worker = Worker(name: string, cores: Option<string>)

  /**
   * The tag is split on ':' and the first two parts kept: the name is the
   * text before the first ':', the cores the text between the first and the
   * second ':' (or the end of the tag).
   */
  function ParseTag(tag: string): (w: Worker)
    ensures ':' !in w.name
    ensures w.cores.None? <==> ':' !in tag
    ensures w.cores.None? ==> w.name == tag
    ensures w.cores.Some? ==>
      var prefix := w.name + ":" + w.cores.value;
      && ':' !in w.cores.value
      && StartsWith(tag, prefix)
      && (|tag| == |prefix| || tag[|prefix|] == ':')
  {
    var parts := Split(tag, ':');
    assert parts[0] in parts;
    if |parts| == 1 then
      Worker(parts[0], None)
    else
      assert parts[1] in parts;
      var tail := Join(parts[1..], ':');
      assert tag == parts[0] + [':'] + tail;
      assert tag[|parts[0]|] == ':';
      if |parts| == 2 then
        assert tail == parts[1];
        Worker(parts[0], Some(parts[1]))
      else
        assert tail == parts[1] + [':'] + Join(parts[2..], ':');
        Worker(parts[0], Some(parts[1]))
  }

  /** A tag written as `name:cores` reads back as that name and those cores. */
  lemma TagRoundTrip(name: string, cores: string)
    requires ':' !in name && ':' !in cores
    ensures ParseTag(name + ":" + cores) == Worker(name, Some(cores))
  {
    var parts := [name, cores];
    assert Join(parts[1..], ':') == cores;
    assert Join(parts, ':') == name + ":" + cores;
    SplitJoin(parts, ':');
  }
}
