/**
 * The broker URL split `AMQPURL.match(/^amqp:\/\/(.+):(.+)@(.+)\/(.+)$/)`.
 *
 * After the literal scheme the pattern is four greedy `(.+)` groups separated
 * by the literal characters ':', '@' and '/'. A backtracking matcher gives
 * each group, left to right, the longest text that still lets the rest of the
 * pattern match. `MatchGroups` states that search for any list of separator
 * characters; `ParseAmqpUrl` instantiates it.
 */
module AmqpUrl {
  import opened Wrappers
  import opened Text

  const SCHEME := "amqp://"
  const SEPARATORS := [':', '@', '/']

  /** The characters JavaScript's `.` does not match. */
  predicate IsLineTerminator(c: char) {
    c == '\n' || c == '\r' || c == '\U{2028}' || c == '\U{2029}'
  }

  predicate NoLineTerminator(s: string) {
    forall c <- s :: !IsLineTerminator(c)
  }

  predicate NonEmptyGroups(gs: seq<string>) {
    forall g <- gs :: |g| > 0
  }

  /** The text a list of groups and the separators between them spell. */
  function Interleave(gs: seq<string>, seps: seq<char>): string
    requires |gs| == |seps| + 1
    decreases |seps|
  {
    if seps == [] then gs[0] else gs[0] + [seps[0]] + Interleave(gs[1..], seps[1..])
  }

  /**
   * Greedy match of `(.+)s0(.+)s1...(.+)` against the whole of `r`, where the
   * characters of `r` are already known to be ones `.` matches.
   */
  function MatchGroups(r: string, seps: seq<char>): (m: Option<seq<string>>)
    ensures m.Some? ==> |m.value| == |seps| + 1 && NonEmptyGroups(m.value)
    ensures m.Some? ==> Interleave(m.value, seps) == r
    decreases |seps|, 1, 0
  {
    if seps == [] then (if r != [] then Some([r]) else None)
    else LongestFirst(r, seps, |r|)
  }

  /**
   * Backtracking over the end of the first group: tries the cut points
   * `n - 1, n - 2, ..., 1` in that order and takes the first one where the
   * separator stands and the rest of the pattern matches what follows.
   */
  function LongestFirst(r: string, seps: seq<char>, n: nat): (m: Option<seq<string>>)
    requires seps != [] && n <= |r|
    ensures m.Some? ==> |m.value| == |seps| + 1 && NonEmptyGroups(m.value)
    ensures m.Some? ==> Interleave(m.value, seps) == r
    decreases |seps|, 0, n
  {
    if n <= 1 then None
    else
      var i := n - 1;
      if r[i] == seps[0] then
        match MatchGroups(r[i + 1..], seps[1..])
        case Some(rest) =>
          var gs := [r[..i]] + rest;
          assert gs[1..] == rest;
          assert r == r[..i] + [r[i]] + r[i + 1..];
          Some(gs)
        case None => LongestFirst(r, seps, i)
      else LongestFirst(r, seps, i)
  }

  /** The search never skips a cut point at or below `n - 1` that works. */
  lemma {:induction false} LongestFirstMaximal(r: string, seps: seq<char>, n: nat, j: nat)
    requires seps != [] && n <= |r| && 1 <= j < n
    requires r[j] == seps[0] && MatchGroups(r[j + 1..], seps[1..]).Some?
    ensures LongestFirst(r, seps, n).Some?
    ensures j <= |LongestFirst(r, seps, n).value[0]|
  {
    var i := n - 1;
    if !(r[i] == seps[0] && MatchGroups(r[i + 1..], seps[1..]).Some?) {
      LongestFirstMaximal(r, seps, i, j);
    }
  }

  /** What follows the first group and its separator is itself matched greedily. */
  lemma {:induction false} LongestFirstShape(r: string, seps: seq<char>, n: nat)
    requires seps != [] && n <= |r|
    requires LongestFirst(r, seps, n).Some?
    ensures var gs := LongestFirst(r, seps, n).value;
      |gs[0]| < |r| && MatchGroups(r[|gs[0]| + 1..], seps[1..]) == Some(gs[1..])
  {
    var i := n - 1;
    if !(r[i] == seps[0] && MatchGroups(r[i + 1..], seps[1..]).Some?) {
      LongestFirstShape(r, seps, i);
    }
  }

  /**
   * Every text the pattern could spell is matched, and the first group of
   * the match is at least as long as the first group of any such spelling.
   */
  lemma {:induction false} MatchGroupsComplete(gs: seq<string>, seps: seq<char>)
    requires |gs| == |seps| + 1 && NonEmptyGroups(gs)
    ensures MatchGroups(Interleave(gs, seps), seps).Some?
    ensures |gs[0]| <= |MatchGroups(Interleave(gs, seps), seps).value[0]|
  {
    assert gs[0] in gs;
    if seps != [] {
      var r := Interleave(gs, seps);
      var t := Interleave(gs[1..], seps[1..]);
      assert NonEmptyGroups(gs[1..]) by {
        forall g | g in gs[1..] ensures |g| > 0 { assert g in gs; }
      }
      MatchGroupsComplete(gs[1..], seps[1..]);
      var j := |gs[0]|;
      assert r[j] == seps[0];
      assert r[j + 1..] == t;
      LongestFirstMaximal(r, seps, |r|, j);
    }
  }

  /**
   * Every cut the greedy search would try before the intended one fails:
   * wherever the first separator occurs in the text after the first group,
   * what follows it does not match the rest of the pattern.
   */
  ghost predicate LaterCutsFail(gs: seq<string>, seps: seq<char>)
    requires |gs| == |seps| + 1 && seps != []
  {
    var t := Interleave(gs[1..], seps[1..]);
    forall p :: 0 <= p < |t| && t[p] == seps[0] ==> MatchGroups(t[p + 1..], seps[1..]).None?
  }

  /** At every level of the pattern, the later cuts fail. */
  ghost predicate Exact(gs: seq<string>, seps: seq<char>)
    requires |gs| == |seps| + 1
    decreases |seps|
  {
    seps == [] || (LaterCutsFail(gs, seps) && Exact(gs[1..], seps[1..]))
  }

  /** A cut past the end of the first group leaves a remainder that does not match. */
  lemma NoLaterCut(gs: seq<string>, seps: seq<char>, j: nat)
    requires |gs| == |seps| + 1 && seps != [] && LaterCutsFail(gs, seps)
    requires |gs[0]| < j < |Interleave(gs, seps)| && Interleave(gs, seps)[j] == seps[0]
    ensures MatchGroups(Interleave(gs, seps)[j + 1..], seps[1..]).None?
  {
    var r := Interleave(gs, seps);
    var t := Interleave(gs[1..], seps[1..]);
    assert r == gs[0] + [seps[0]] + t;
    var p := j - |gs[0]| - 1;
    assert t[p] == r[j];
    assert t[p + 1..] == r[j + 1..];
  }

  /** When the later cuts fail, the greedy first group is the intended one. */
  lemma {:induction false} GreedyCutIsGroupEnd(gs: seq<string>, seps: seq<char>)
    requires |gs| == |seps| + 1 && seps != [] && NonEmptyGroups(gs) && LaterCutsFail(gs, seps)
    ensures MatchGroups(Interleave(gs, seps), seps).Some?
    ensures MatchGroups(Interleave(gs, seps), seps).value[0] == gs[0]
  {
    var r := Interleave(gs, seps);
    var t := Interleave(gs[1..], seps[1..]);
    MatchGroupsComplete(gs, seps);
    var m := MatchGroups(r, seps).value;
    var j := |m[0]|;
    LongestFirstShape(r, seps, |r|);
    assert r == gs[0] + [seps[0]] + t;
    assert r[j] == seps[0] by {
      assert r == m[0] + [seps[0]] + Interleave(m[1..], seps[1..]);
    }
    if j > |gs[0]| {
      NoLaterCut(gs, seps, j);
    }
    assert r[..j] == m[0];
  }

  /** When no later cut succeeds, the greedy match recovers exactly the groups. */
  lemma {:induction false} MatchGroupsExact(gs: seq<string>, seps: seq<char>)
    requires |gs| == |seps| + 1 && NonEmptyGroups(gs) && Exact(gs, seps)
    ensures MatchGroups(Interleave(gs, seps), seps) == Some(gs)
  {
    if seps == [] {
      assert gs[0] in gs;
      assert gs == [gs[0]];
    } else {
      var r := Interleave(gs, seps);
      var t := Interleave(gs[1..], seps[1..]);
      GreedyCutIsGroupEnd(gs, seps);
      var m := MatchGroups(r, seps).value;
      LongestFirstShape(r, seps, |r|);
      assert r == gs[0] + [seps[0]] + t;
      assert r[|gs[0]| + 1..] == t;
      assert NonEmptyGroups(gs[1..]) by {
        forall g | g in gs[1..] ensures |g| > 0 { assert g in gs; }
      }
      MatchGroupsExact(gs[1..], seps[1..]);
      assert m == [m[0]] + m[1..];
      assert gs == [gs[0]] + gs[1..];
    }
  }

  /** A match of two separators needs the first, and later the second, in the text. */
  lemma SeparatorsOccur(w: string, a: char, b: char)
    requires MatchGroups(w, [a, b]).Some?
    ensures exists q :: 0 <= q < |w| && w[q] == a && b in w[q + 1..]
  {
    var m := MatchGroups(w, [a, b]).value;
    var tail := Interleave(m[1..], [a, b][1..]);
    assert w == m[0] + [a] + tail;
    assert [a, b][1..] == [b];
    assert tail == m[1] + [b] + Interleave(m[1..][1..], [b][1..]);
    var q := |m[0]|;
    assert w[q] == a;
    assert w[q + 1..] == tail;
    assert tail[|m[1]|] == b;
  }

  /** Without the separator in the text, a one-separator pattern does not match. */
  lemma NoMatchWithoutSeparator(w: string, a: char)
    requires a !in w
    ensures MatchGroups(w, [a]).None?
  {
  }

  /**
   * Without an `a` that has a `b` somewhere after it, a two-separator pattern
   * does not match.
   */
  lemma NoMatchWithoutSeparators(w: string, a: char, b: char)
    requires forall q :: 0 <= q < |w| && w[q] == a ==> b !in w[q + 1..]
    ensures MatchGroups(w, [a, b]).None?
  {
    if MatchGroups(w, [a, b]).Some? {
      SeparatorsOccur(w, a, b);
    }
  }

  /** The rest of a sequence from some position on holds only what the sequence holds. */
  lemma NotInSuffix(v: string, c: char, k: nat)
    requires c !in v && k <= |v|
    ensures c !in v[k..]
  {
  }

  /**
   * In `h + "/" + v` with no '@' in the host and no '/' in the vhost, nothing
   * after an '@' is a '/'.
   */
  lemma NoSlashAfterAt(h: string, v: string, a: nat)
    requires '@' !in h && '/' !in v
    requires a < |h + "/" + v| && (h + "/" + v)[a] == '@'
    ensures '/' !in (h + "/" + v)[a + 1..]
  {
    var s := h + "/" + v;
    assert a > |h|;
    assert s[a + 1..] == v[a - |h|..];
    NotInSuffix(v, '/', a - |h|);
  }

  /** The four capture groups of the broker URL. */
  datatype AmqpInfo = AmqpInfo(user: string, password: string, host: string, vhost: string)

  /** The URL a capture would have been taken from. */
  function Compose(info: AmqpInfo): string {
    SCHEME + info.user + ":" + info.password + "@" + info.host + "/" + info.vhost
  }

  predicate WellFormed(info: AmqpInfo) {
    && |info.user| > 0 && |info.password| > 0 && |info.host| > 0 && |info.vhost| > 0
    && NoLineTerminator(info.user) && NoLineTerminator(info.password)
    && NoLineTerminator(info.host) && NoLineTerminator(info.vhost)
  }

  function Groups(info: AmqpInfo): seq<string> {
    [info.user, info.password, info.host, info.vhost]
  }

  lemma ComposeInterleave(info: AmqpInfo)
    ensures Compose(info) == SCHEME + Interleave(Groups(info), SEPARATORS)
  {
    var gs := Groups(info);
    assert gs[1..][1..][1..] == [info.vhost];
    assert SEPARATORS[1..][1..][1..] == [];
  }

  lemma NoLineTerminatorConcat(a: string, b: string)
    ensures NoLineTerminator(a + b) <==> NoLineTerminator(a) && NoLineTerminator(b)
  {
    if NoLineTerminator(a) && NoLineTerminator(b) {
      forall c | c in a + b ensures !IsLineTerminator(c) {
        var x :| 0 <= x < |a + b| && (a + b)[x] == c;
        if x < |a| { assert a[x] == c; } else { assert b[x - |a|] == c; }
      }
    }
    if NoLineTerminator(a + b) {
      forall c | c in a ensures !IsLineTerminator(c) {
        var x :| 0 <= x < |a| && a[x] == c;
        assert (a + b)[x] == c;
      }
      forall c | c in b ensures !IsLineTerminator(c) {
        var x :| 0 <= x < |b| && b[x] == c;
        assert (a + b)[|a| + x] == c;
      }
    }
  }

  /** The capture `AMQPURL.match(...)` yields, or `None` where it yields `null`. */
  function ParseAmqpUrl(url: string): (m: Option<AmqpInfo>)
    ensures m.Some? ==> WellFormed(m.value) && Compose(m.value) == url
    ensures !StartsWith(url, SCHEME) ==> m.None?
  {
    if StartsWith(url, SCHEME) && NoLineTerminator(url[|SCHEME|..]) then
      match MatchGroups(url[|SCHEME|..], SEPARATORS)
      case Some(gs) =>
        var info := AmqpInfo(gs[0], gs[1], gs[2], gs[3]);
        assert Groups(info) == gs;
        ComposeInterleave(info);
        assert url == SCHEME + url[|SCHEME|..];
        assert gs[0] in gs && gs[1] in gs && gs[2] in gs && gs[3] in gs;
        NoLineTerminatorConcat(info.user, ":" + info.password + "@" + info.host + "/" + info.vhost);
        Some(info)
      case None => None
    else None
  }

  lemma {:induction false} NoLineTerminatorInterleave(gs: seq<string>, seps: seq<char>)
    requires |gs| == |seps| + 1
    requires forall g <- gs :: NoLineTerminator(g)
    requires forall c <- seps :: !IsLineTerminator(c)
    ensures NoLineTerminator(Interleave(gs, seps))
  {
    assert gs[0] in gs;
    if seps != [] {
      assert seps[0] in seps;
      assert forall g <- gs[1..] :: g in gs;
      assert forall c <- seps[1..] :: c in seps;
      NoLineTerminatorInterleave(gs[1..], seps[1..]);
      NoLineTerminatorConcat(gs[0], [seps[0]]);
      NoLineTerminatorConcat(gs[0] + [seps[0]], Interleave(gs[1..], seps[1..]));
    }
  }

  /**
   * Every URL the pattern could have been written from matches, and the user
   * the match takes is at least as long as the user it was written with
   * (the first group is greedy).
   */
  lemma ParseAmqpUrlComplete(info: AmqpInfo)
    requires WellFormed(info)
    ensures ParseAmqpUrl(Compose(info)).Some?
    ensures |info.user| <= |ParseAmqpUrl(Compose(info)).value.user|
  {
    var url := Compose(info);
    var gs := Groups(info);
    ComposeInterleave(info);
    assert url[|SCHEME|..] == Interleave(gs, SEPARATORS);
    NoLineTerminatorInterleave(gs, SEPARATORS);
    MatchGroupsComplete(gs, SEPARATORS);
  }

  /**
   * No field holds a character that would let the greedy match cut it
   * short: no ':' in the password, no '@' in the host, no '/' in the vhost.
   * The user may hold anything, and the host may hold ':' (a port).
   */
  predicate Separable(info: AmqpInfo) {
    ':' !in info.password && '@' !in info.host && '/' !in info.vhost
  }

  /** The user's cut is the last workable ':'; any ':' after it is in the host or vhost. */
  lemma UserCutsFail(info: AmqpInfo)
    requires Separable(info)
    ensures LaterCutsFail(Groups(info), SEPARATORS)
  {
    var gs := Groups(info);
    var pw, h, v := info.password, info.host, info.vhost;
    var t := Interleave(gs[1..], SEPARATORS[1..]);
    var s := h + "/" + v;
    assert gs[1..] == [pw, h, v] && gs[1..][1..] == [h, v] && gs[1..][1..][1..] == [v];
    assert SEPARATORS[1..] == ['@', '/'] && SEPARATORS[1..][1..] == ['/'];
    assert Interleave([v], []) == v;
    assert Interleave([h, v], ['/']) == s;
    assert t == pw + "@" + s;
    forall p | 0 <= p < |t| && t[p] == ':'
      ensures MatchGroups(t[p + 1..], SEPARATORS[1..]).None?
    {
      assert p > |pw|;
      var k := p - |pw|;
      var w := t[p + 1..];
      assert w == s[k..];
      forall q | 0 <= q < |w| && w[q] == '@' ensures '/' !in w[q + 1..] {
        NoSlashAfterAt(h, v, k + q);
        assert w[q + 1..] == s[k + q + 1..];
      }
      NoMatchWithoutSeparators(w, '@', '/');
    }
  }

  /** The password's cut is the last workable '@'; any '@' after it is in the vhost. */
  lemma PasswordCutsFail(info: AmqpInfo)
    requires Separable(info)
    ensures LaterCutsFail(Groups(info)[1..], SEPARATORS[1..])
  {
    var gs := Groups(info)[1..];
    var seps := SEPARATORS[1..];
    var h, v := info.host, info.vhost;
    var t := Interleave(gs[1..], seps[1..]);
    assert gs[1..] == [h, v] && gs[1..][1..] == [v];
    assert seps[1..] == ['/'];
    assert [h, v][1..] == [v] && ['/'][1..] == [];
    assert Interleave([v], []) == v;
    assert t == h + "/" + v;
    forall p | 0 <= p < |t| && t[p] == '@'
      ensures MatchGroups(t[p + 1..], seps[1..]).None?
    {
      assert p > |h|;
      assert t[p + 1..] == v[p - |h|..];
      NotInSuffix(v, '/', p - |h|);
      NoMatchWithoutSeparator(t[p + 1..], '/');
    }
  }

  lemma SeparableExact(info: AmqpInfo)
    requires Separable(info)
    ensures Exact(Groups(info), SEPARATORS)
  {
    var gs := Groups(info);
    UserCutsFail(info);
    PasswordCutsFail(info);
    var v := info.vhost;
    assert gs[1..][1..] == [info.host, v] && gs[1..][1..][1..] == [v];
    assert SEPARATORS[1..][1..] == ['/'] && SEPARATORS[1..][1..][1..] == [];
    assert LaterCutsFail(gs[1..][1..], SEPARATORS[1..][1..]) by {
      assert Interleave(gs[1..][1..][1..], SEPARATORS[1..][1..][1..]) == v;
    }
  }

  /**
   * Round trip: a URL written from separable fields splits back into
   * exactly those fields.
   */
  lemma ParseAmqpUrlRoundTrip(info: AmqpInfo)
    requires WellFormed(info) && Separable(info)
    ensures ParseAmqpUrl(Compose(info)) == Some(info)
  {
    var url := Compose(info);
    var gs := Groups(info);
    ComposeInterleave(info);
    assert url[|SCHEME|..] == Interleave(gs, SEPARATORS);
    NoLineTerminatorInterleave(gs, SEPARATORS);
    SeparableExact(info);
    MatchGroupsExact(gs, SEPARATORS);
  }

  /** A user containing ':' is kept whole: the last usable ':' ends the user. */
  lemma GreedyUserExample()
    ensures ParseAmqpUrl("amqp://u:x:p@h/v") == Some(AmqpInfo("u:x", "p", "h", "v"))
  {
    var info := AmqpInfo("u:x", "p", "h", "v");
    assert Compose(info) == "amqp://u:x:p@h/v";
    assert NoLineTerminator("u:x") by {
      forall c | c in "u:x" ensures !IsLineTerminator(c) {
        var x :| 0 <= x < 3 && "u:x"[x] == c;
      }
    }
    assert NoLineTerminator("p") && NoLineTerminator("h") && NoLineTerminator("v");
    ParseAmqpUrlRoundTrip(info);
  }

  /** A line terminator anywhere after the scheme defeats the match. */
  lemma LineBreakRejected(url: string, k: nat)
    requires StartsWith(url, SCHEME) && |SCHEME| <= k < |url| && IsLineTerminator(url[k])
    ensures ParseAmqpUrl(url).None?
  {
    var rest := url[|SCHEME|..];
    assert rest[k - |SCHEME|] == url[k];
    assert rest[k - |SCHEME|] in rest;
  }

  /** `$` without the multiline flag does not match before a final newline. */
  lemma TrailingNewlineRejected(info: AmqpInfo)
    ensures ParseAmqpUrl(Compose(info) + "\n").None?
  {
    var url := Compose(info) + "\n";
    LineBreakRejected(url, |url| - 1);
  }

  /** A port after the host stays in the host field. */
  lemma HostPortExample()
    ensures ParseAmqpUrl("amqp://g:g@h:5/v") == Some(AmqpInfo("g", "g", "h:5", "v"))
  {
    var info := AmqpInfo("g", "g", "h:5", "v");
    assert Compose(info) == "amqp://g:g@h:5/v";
    assert NoLineTerminator("h:5") by {
      forall c | c in "h:5" ensures !IsLineTerminator(c) {
        var x :| 0 <= x < 3 && "h:5"[x] == c;
      }
    }
    assert NoLineTerminator("g") && NoLineTerminator("v");
    ParseAmqpUrlRoundTrip(info);
  }
}
