/**
 * PidOf and PKill: find processes by the name of their executable, and
 * signal them. Regular expressions and signal delivery are parameters:
 * `compile` stands for regexp.Compile and `kill` for syscall.Kill.
 */
module Procfs {
  import opened Wrappers
  import opened Strings
  import opened Strconv
  import opened PidScan

  const EmptyName: string := "name should not be empty"

  /** regexp.Compile: the compiled pattern, or the syntax error. */
  type Compiler = string -> Result<Matcher>

  /** syscall.Kill(pid, sig): None when the signal was delivered, else the error's message. */
  type Killer = (int, int) -> Option<string>

  /** The pattern PidOf compiles: the name anchored at the end, after a '/' or at the start. */
  function PidOfPattern(name: string): (p: string)
    ensures |p| == |name| + 6
    ensures p[..5] == "(^|/)" && p[5..|p| - 1] == name && p[|p| - 1] == '$'
  {
    "(^|/)" + name + "$"
  }

  const NoPidsPrefix: string := "unable to fetch pids for process name : "

  /** The error PKill reports when no process matches: a fixed text, then the name as %q quotes it. */
  function NoPidsMessage(name: string): (m: string)
    ensures |m| >= |NoPidsPrefix| && m[..|NoPidsPrefix|] == NoPidsPrefix
    ensures Unquote(m[|NoPidsPrefix|..]) == Some(name)
  {
    var m := NoPidsPrefix + Quote(name);
    assert m[|NoPidsPrefix|..] == Quote(name);
    UnquoteQuote(name);
    m
  }

  /** The messages of the failed deliveries, one per failing pid, in pid order. */
  function Failures(pids: seq<int>, sig: int, kill: Killer): seq<string> {
    Collect(pids, p => kill(p, sig))
  }

  /**
   * The failures are the messages of exactly the pids whose delivery failed:
   * idx lists those positions in increasing order, one message each.
   */
  lemma FailuresExactly(pids: seq<int>, sig: int, kill: Killer) returns (idx: seq<nat>)
    ensures |idx| == |Failures(pids, sig, kill)|
    ensures forall k :: 0 <= k < |idx| ==>
      idx[k] < |pids| && kill(pids[idx[k]], sig) == Some(Failures(pids, sig, kill)[k])
    ensures forall k, l :: 0 <= k < l < |idx| ==> idx[k] < idx[l]
    ensures forall i :: 0 <= i < |pids| && kill(pids[i], sig).Some? ==> i in idx
  {
    idx := CollectExactly(pids, p => kill(p, sig));
  }

  /** A message is among the failures exactly when delivering the signal to some pid failed with it. */
  lemma FailuresMembers(pids: seq<int>, sig: int, kill: Killer)
    ensures forall msg :: msg in Failures(pids, sig, kill) <==>
      exists i :: 0 <= i < |pids| && kill(pids[i], sig) == Some(msg)
  {
    var failures := Failures(pids, sig, kill);
    var idx := FailuresExactly(pids, sig, kill);
    forall msg | msg in failures
      ensures exists i :: 0 <= i < |pids| && kill(pids[i], sig) == Some(msg)
    {
      var k :| 0 <= k < |failures| && failures[k] == msg;
      assert kill(pids[idx[k]], sig) == Some(msg);
    }
    forall msg, i | 0 <= i < |pids| && kill(pids[i], sig) == Some(msg)
      ensures msg in failures
    {
      assert i in idx;
      var k :| 0 <= k < |idx| && idx[k] == i;
      assert failures[k] == msg;
    }
  }

  /** There are no failures exactly when every signal is delivered. */
  lemma FailuresEmptyIff(pids: seq<int>, sig: int, kill: Killer)
    ensures Failures(pids, sig, kill) == [] <==> forall i :: 0 <= i < |pids| ==> kill(pids[i], sig).None?
  {
    FailuresMembers(pids, sig, kill);
    var failures := Failures(pids, sig, kill);
    if failures != [] {
      assert failures[0] in failures;
    }
  }

  /** Every message of `s` once, in the order of first occurrence. */
  function Dedup(s: seq<string>): (d: seq<string>)
    ensures |d| <= |s|
  {
    if s == [] then []
    else
      var prev := Dedup(s[..|s| - 1]);
      var last := s[|s| - 1];
      if last in prev then prev else prev + [last]
  }

  /** Dedup keeps exactly the messages that occur in `s`. */
  lemma {:induction false} DedupSameElements(s: seq<string>)
    ensures forall x :: x in Dedup(s) <==> x in s
  {
    if s != [] {
      var init, last := s[..|s| - 1], s[|s| - 1];
      DedupSameElements(init);
      assert s == init + [last];
    }
  }

  /** Dedup holds no message twice. */
  lemma {:induction false} DedupDistinct(s: seq<string>)
    ensures forall i, j :: 0 <= i < j < |Dedup(s)| ==> Dedup(s)[i] != Dedup(s)[j]
  {
    if s != [] {
      DedupDistinct(s[..|s| - 1]);
    }
  }

  /** Signalling one more pid adds its failure message to the deduplicated list, unless already there. */
  lemma SignalStep(pids: seq<int>, k: nat, sig: int, kill: Killer)
    requires k < |pids|
    ensures var before := Dedup(Failures(pids[..k], sig, kill));
      var outcome := kill(pids[k], sig);
      Dedup(Failures(pids[..k + 1], sig, kill))
      == if outcome.None? || outcome.value in before then before else before + [outcome.value]
  {
    var prefix := pids[..k + 1];
    assert prefix[..k] == pids[..k] && prefix[k] == pids[k];
    var failed := Failures(pids[..k], sig, kill);
    var outcome := kill(pids[k], sig);
    if outcome.Some? {
      assert Failures(prefix, sig, kill) == failed + [outcome.value];
      DedupSnoc(failed, outcome.value);
    } else {
      assert Failures(prefix, sig, kill) == failed + [];
      assert failed + [] == failed;
    }
  }

  /** A message joins Dedup at the end exactly when it is new. */
  lemma DedupSnoc(s: seq<string>, x: string)
    ensures Dedup(s + [x]) == if x in Dedup(s) then Dedup(s) else Dedup(s) + [x]
  {
    assert (s + [x])[..|s|] == s;
  }

  /** The messages of Dedup stand in the order in which they first occur in `s`. */
  lemma {:induction false} DedupFirstOccurrenceOrder(s: seq<string>)
    ensures forall i, j :: 0 <= i < j < |Dedup(s)| ==> IndexOf(s, Dedup(s)[i]) < IndexOf(s, Dedup(s)[j])
  {
    if s != [] {
      var init, last := s[..|s| - 1], s[|s| - 1];
      var prev := Dedup(init);
      DedupFirstOccurrenceOrder(init);
      DedupSameElements(init);
      assert s == init + [last];
      forall x | x in prev ensures IndexOf(s, x) == IndexOf(init, x) < |init| {
        IndexOfExtend(init, last, x);
      }
      if last !in prev {
        assert forall i :: 0 <= i < |init| ==> init[i] != last;
        IndexOfAfterFree(init, last, []);
        assert init + [last] + [] == s;
      }
    }
  }

  /** The error PKill returns for its collected messages: none, the one, or all of them in brackets. */
  function Aggregate(msgs: seq<string>): (err: Option<Error>)
    ensures err == None <==> msgs == []
    ensures |msgs| == 1 ==> err == Some(Text(msgs[0]))
  {
    if |msgs| == 0 then None
    else if |msgs| == 1 then Some(Text(msgs[0]))
    else Some(Text("[ " + Join(msgs, ",") + " ]"))
  }

  /**
   * Several messages, commas or not, come back as one text: "[ ", the messages
   * joined by ",", then " ]". Message k stands right after the brackets'
   * "[ " and the messages before it with their commas.
   */
  lemma AggregateBracketed(msgs: seq<string>)
    requires |msgs| >= 2
    ensures Aggregate(msgs).Some? && Aggregate(msgs).value.Text?
    ensures var t := Aggregate(msgs).value.msg;
      && |t| == 4 + |Concat(msgs)| + |msgs| - 1
      && t[..2] == "[ " && t[|t| - 2..] == " ]" && t[2..|t| - 2] == Join(msgs, ",")
      && forall k :: 0 <= k < |msgs| ==>
           var o := 2 + JoinOffset(msgs, ",", k);
           o + |msgs[k]| <= |t| && t[o..o + |msgs[k]|] == msgs[k]
  {
    var joined := Join(msgs, ",");
    JoinLength(msgs, ",");
    BracketedSlice(joined, 0, |joined|);
    forall k | 0 <= k < |msgs|
      ensures var o := 2 + JoinOffset(msgs, ",", k);
        o + |msgs[k]| <= |Aggregate(msgs).value.msg| && Aggregate(msgs).value.msg[o..o + |msgs[k]|] == msgs[k]
    {
      AggregateMessageAt(msgs, k);
    }
  }

  lemma AggregateMessageAt(msgs: seq<string>, k: nat)
    requires |msgs| >= 2 && k < |msgs|
    ensures var t, o := Aggregate(msgs).value.msg, 2 + JoinOffset(msgs, ",", k);
      o + |msgs[k]| <= |t| && t[o..o + |msgs[k]|] == msgs[k]
  {
    JoinLayout(msgs, ",", k);
    var o := JoinOffset(msgs, ",", k);
    BracketedSlice(Join(msgs, ","), o, o + |msgs[k]|);
  }

  /** Inside the brackets, the text is the joined messages, shifted by the two characters of "[ ". */
  lemma BracketedSlice(joined: string, i: nat, e: nat)
    requires i <= e <= |joined|
    ensures var t := "[ " + joined + " ]";
      |t| == |joined| + 4 && t[..2] == "[ " && t[|t| - 2..] == " ]" && t[2 + i..2 + e] == joined[i..e]
  {
  }

  /**
   * The aggregate text of several comma-free messages gives them back: strip
   * the "[ " and " ]" and split at the commas.
   */
  lemma AggregateRecoversMessages(msgs: seq<string>)
    requires |msgs| >= 2
    requires forall i :: 0 <= i < |msgs| ==> ',' !in msgs[i]
    ensures var t := Aggregate(msgs).value.msg;
      |t| >= 4 && t[..2] == "[ " && t[|t| - 2..] == " ]" && Split(t[2..|t| - 2], ',') == msgs
  {
    var joined := Join(msgs, ",");
    var t := "[ " + joined + " ]";
    assert t[2..|t| - 2] == joined;
    SplitJoin(msgs, ',');
  }

  /** The search of PKill's inner loop: whether `msg` is already among the collected messages. */
  method Contains(errmsgs: seq<string>, msg: string) returns (seen: bool)
    ensures seen <==> msg in errmsgs
  {
    var j := 0;
    while j < |errmsgs|
      invariant 0 <= j <= |errmsgs|
      invariant forall t :: 0 <= t < j ==> errmsgs[t] != msg
    {
      if errmsgs[j] == msg {
        return true;
      }
      j := j + 1;
    }
    return false;
  }

  /**
   * The loop of PKill: signal every pid in turn and keep each failure message
   * once, in the order in which it first occurs.
   */
  method SignalAll(pids: seq<int>, sig: int, kill: Killer) returns (errmsgs: seq<string>)
    ensures errmsgs == Dedup(Failures(pids, sig, kill))
  {
    errmsgs := [];
    var k := 0;
    while k < |pids|
      invariant 0 <= k <= |pids|
      invariant errmsgs == Dedup(Failures(pids[..k], sig, kill))
    {
      SignalStep(pids, k, sig, kill);
      var outcome := kill(pids[k], sig);
      if outcome.Some? {
        var msg := outcome.value;
        var seen := Contains(errmsgs, msg);
        if !seen {
          errmsgs := errmsgs + [msg];
        }
      }
      k := k + 1;
    }
    assert pids[..k] == pids;
  }

  /**
   * PKill: an empty name and a pattern that does not compile are errors; a
   * scan that finds nothing is the "unable to fetch pids" error; otherwise
   * every pid is signalled and the distinct failure messages, in the order
   * they first occur, are aggregated.
   */
  method PKill(name: string, sig: int, compile: Compiler, dir: ProcDir, kill: Killer) returns (err: Option<Error>)
    ensures name == [] ==> err == Some(Text(EmptyName))
    ensures name != [] && compile(name).Err? ==> err == Some(compile(name).error)
    ensures name != [] && compile(name).Ok? && Len(Scan(dir, compile(name).value)) == 0 ==>
      err == Some(Text(NoPidsMessage(name)))
    ensures name != [] && compile(name).Ok? && Len(Scan(dir, compile(name).value)) > 0 ==>
      err == Aggregate(Dedup(Failures(Scan(dir, compile(name).value).pids, sig, kill)))
  {
    if |name| == 0 {
      return Some(Text(EmptyName));
    }
    var re := compile(name);
    if re.Err? {
      return Some(re.error);
    }
    var pids := GetPids(dir, re.value);
    if Len(pids) == 0 {
      return Some(Text(NoPidsMessage(name)));
    }
    var errmsgs := SignalAll(pids.pids, sig, kill);
    var numErrors := |errmsgs|;
    if numErrors > 0 {
      if numErrors == 1 {
        return Some(Text(errmsgs[0]));
      }
      return Some(Text("[ " + Join(errmsgs, ",") + " ]"));
    }
    return None;
  }

  /** PKill succeeds exactly when some process matches and every signal is delivered. */
  lemma PKillSucceeds(name: string, sig: int, compile: Compiler, dir: ProcDir, kill: Killer, err: Option<Error>)
    requires name != [] && compile(name).Ok?
    requires Len(Scan(dir, compile(name).value)) > 0
    requires err == Aggregate(Dedup(Failures(Scan(dir, compile(name).value).pids, sig, kill)))
    ensures var pids := Scan(dir, compile(name).value).pids;
      err == None <==> forall i :: 0 <= i < |pids| ==> kill(pids[i], sig).None?
  {
    var failures := Failures(Scan(dir, compile(name).value).pids, sig, kill);
    FailuresEmptyIff(Scan(dir, compile(name).value).pids, sig, kill);
    if failures != [] {
      DedupSameElements(failures);
      assert failures[0] in Dedup(failures);
    }
  }

  /**
   * PidOf: an empty name and a pattern that does not compile give an empty
   * (non-nil) list and the error; otherwise the scan's result, with the name
   * anchored as "(^|/)" + name + "$", and no error.
   */
  method PidOf(name: string, compile: Compiler, dir: ProcDir) returns (pids: PidList, err: Option<Error>)
    ensures name == [] ==> pids == Pids([]) && err == Some(Text(EmptyName))
    ensures name != [] && compile(PidOfPattern(name)).Err? ==>
      pids == Pids([]) && err == Some(compile(PidOfPattern(name)).error)
    ensures name != [] && compile(PidOfPattern(name)).Ok? ==>
      pids == Scan(dir, compile(PidOfPattern(name)).value) && err == None
  {
    if |name| == 0 {
      return Pids([]), Some(Text(EmptyName));
    }
    var re := compile(PidOfPattern(name));
    if re.Err? {
      return Pids([]), Some(re.error);
    }
    pids := GetPids(dir, re.value);
    return pids, None;
  }
}
