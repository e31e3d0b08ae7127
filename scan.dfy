/**
 * The process scan of getPids: walk the entries of /proc batch by batch and
 * collect, in enumeration order, the pid of every process directory whose
 * executable token (the first field of argv[0]) the pattern matches.
 *
 * The file system is an input: the directory either fails to open or yields
 * a sequence of batches, and each entry carries the outcome of reading its
 * cmdline file. The compiled pattern is a `Matcher`.
 */
module PidScan {
  import opened Wrappers
  import opened Strings
  import opened Strconv

  /** A compiled regular expression, seen through the one question asked of it. */
  type Matcher = string -> bool

  /** The outcome of reading /proc/<name>/cmdline. */
  datatype Cmdline = Cmdline(data: string) | Unreadable

  /** One entry of a Readdir batch. */
  datatype DirEntry = DirEntry(name: string, isDir: bool, cmdline: Cmdline)

  /** What one Readdir call returns: some entries, end of directory, or another error. */
  datatype Batch = Entries(entries: seq<DirEntry>) | EndOfDir | ReadError

  /** Opening /proc: a failure, or the batches that reading it yields in turn. */
  datatype ProcDir = OpenFailed | Opened(batches: seq<Batch>)

  /** A Go []int, where nil and an empty slice are different values. */
  datatype PidList = Nil | Pids(pids: seq<int>)

  function Len(l: PidList): nat {
    if l.Nil? then 0 else |l.pids|
  }

  /** `p` in front of the pids of `l`; a nil list stays nil. */
  function Prepend(p: seq<int>, l: PidList): PidList {
    match l
    case Nil => Nil
    case Pids(q) => Pids(p + q)
  }

  /** The separators of argv[0]'s fields: white space and ':'. */
  predicate IsFieldSeparator(c: char) {
    IsSpace(c) || c == ':'
  }

  /** argv[0]: what comes before the first NUL of a cmdline record (all of it if there is none). */
  function BeforeNul(data: string): (r: string)
    ensures |r| <= |data| && r == data[..|r|]
    ensures forall i :: 0 <= i < |r| ==> r[i] != '\0'
    ensures |r| < |data| ==> data[|r|] == '\0'
  {
    var parts := SplitN(data, '\0', 2);
    assert forall i :: 0 <= i < |parts[0]| ==> parts[0][i] in parts[0];
    parts[0]
  }

  /** The token that the pattern is tested against, if argv[0] has any field. */
  function ExeToken(data: string): Option<string> {
    var exe := FieldsFunc(BeforeNul(data), IsFieldSeparator);
    if exe == [] then None else Some(exe[0])
  }

  /**
   * The token is the first maximal run of non-separators in argv[0]; there is
   * one exactly when argv[0] holds a character that is not a separator.
   */
  lemma ExeTokenIsFirstRun(data: string) returns (i: nat, j: nat)
    ensures var argv0 := BeforeNul(data);
      ExeToken(data).Some? <==> exists k :: 0 <= k < |argv0| && !IsFieldSeparator(argv0[k])
    ensures var argv0 := BeforeNul(data);
      ExeToken(data).Some? ==>
        && i < j <= |argv0|
        && (forall k :: 0 <= k < i ==> IsFieldSeparator(argv0[k]))
        && (forall k :: i <= k < j ==> !IsFieldSeparator(argv0[k]))
        && (j < |argv0| ==> IsFieldSeparator(argv0[j]))
        && ExeToken(data).value == argv0[i..j]
  {
    var argv0 := BeforeNul(data);
    NoFieldsIffAllSeparators(argv0, IsFieldSeparator);
    if FieldsFunc(argv0, IsFieldSeparator) != [] {
      i, j := FirstFieldIsFirstRun(argv0, IsFieldSeparator);
    } else {
      i, j := 0, 0;
    }
  }

  /** The five tests an entry must pass for its pid to be collected. */
  predicate Selected(e: DirEntry, m: Matcher) {
    && e.isDir
    && Atoi(e.name).Some?
    && e.cmdline.Cmdline?
    && ExeToken(e.cmdline.data).Some?
    && m(ExeToken(e.cmdline.data).value)
  }

  /** The pid an entry contributes: its parsed name when it passes the five tests. */
  function EntryPid(e: DirEntry, m: Matcher): Option<int> {
    if Selected(e, m) then Some(Atoi(e.name).value) else None
  }

  /** The values `pick` gives to the elements of `xs`, in order, skipping the Nones. */
  function Collect<T, U>(xs: seq<T>, pick: T -> Option<U>): seq<U> {
    if xs == [] then []
    else
      var last := xs[|xs| - 1];
      Collect(xs[..|xs| - 1], pick) + (if pick(last).Some? then [pick(last).value] else [])
  }

  /** The pids of the selected entries of one run of entries, in order. */
  function SelectPids(es: seq<DirEntry>, m: Matcher): seq<int> {
    Collect(es, e => EntryPid(e, m))
  }

  /** The scan over a sequence of batches; running out of batches reads as end of directory. */
  function ScanBatches(bs: seq<Batch>, m: Matcher): PidList {
    if bs == [] then Pids([])
    else
      match bs[0]
      case EndOfDir => Pids([])
      case ReadError => Nil
      case Entries(es) => Prepend(SelectPids(es, m), ScanBatches(bs[1..], m))
  }

  /** What getPids returns for a /proc directory and a pattern. */
  function Scan(dir: ProcDir, m: Matcher): PidList {
    match dir
    case OpenFailed => Nil
    case Opened(bs) => ScanBatches(bs, m)
  }

  /** Collecting from two sequences one after the other is collecting from their concatenation. */
  lemma {:induction false} CollectAppend<T, U>(a: seq<T>, b: seq<T>, pick: T -> Option<U>)
    ensures Collect(a + b, pick) == Collect(a, pick) + Collect(b, pick)
    decreases |b|
  {
    if b == [] {
      assert a + b == a;
    } else {
      var b' := b[..|b| - 1];
      assert (a + b)[..|a + b| - 1] == a + b';
      assert (a + b)[|a + b| - 1] == b[|b| - 1];
      CollectAppend(a, b', pick);
    }
  }

  /**
   * Collect keeps the values of exactly the picked elements, in order: idx
   * lists their positions, strictly increasing, and every picked position is
   * among them.
   */
  lemma {:induction false} CollectExactly<T, U>(xs: seq<T>, pick: T -> Option<U>) returns (idx: seq<nat>)
    ensures |idx| == |Collect(xs, pick)|
    ensures forall k :: 0 <= k < |idx| ==> idx[k] < |xs| && pick(xs[idx[k]]).Some?
    ensures forall k :: 0 <= k < |idx| ==> Collect(xs, pick)[k] == pick(xs[idx[k]]).value
    ensures forall k, l :: 0 <= k < l < |idx| ==> idx[k] < idx[l]
    ensures forall i :: 0 <= i < |xs| && pick(xs[i]).Some? ==> i in idx
    decreases |xs|
  {
    if xs == [] {
      idx := [];
    } else {
      var n := |xs| - 1;
      var init := xs[..n];
      var idx' := CollectExactly(init, pick);
      var c, c' := Collect(xs, pick), Collect(init, pick);
      if pick(xs[n]).Some? {
        idx := idx' + [n];
        assert c == c' + [pick(xs[n]).value];
      } else {
        idx := idx';
        assert c == c' + [];
        assert c == c';
      }
      forall k | 0 <= k < |idx'|
        ensures idx[k] == idx'[k] && idx[k] < n && xs[idx[k]] == init[idx'[k]] && c[k] == c'[k]
      {
      }
      forall i | 0 <= i < |xs| && pick(xs[i]).Some?
        ensures i in idx
      {
        if i < n {
          assert init[i] == xs[i];
          assert i in idx';
        }
      }
    }
  }

  /** Selecting from two runs of entries one after the other is selecting from their concatenation. */
  lemma SelectPidsAppend(a: seq<DirEntry>, b: seq<DirEntry>, m: Matcher)
    ensures SelectPids(a + b, m) == SelectPids(a, m) + SelectPids(b, m)
  {
    CollectAppend(a, b, e => EntryPid(e, m));
  }

  /**
   * The scan keeps the pids of exactly the selected entries, in enumeration
   * order, so its result is a subsequence of the entries' pids.
   */
  lemma SelectPidsExactly(es: seq<DirEntry>, m: Matcher) returns (idx: seq<nat>)
    ensures |idx| == |SelectPids(es, m)|
    ensures forall k :: 0 <= k < |idx| ==> idx[k] < |es| && Selected(es[idx[k]], m)
    ensures forall k :: 0 <= k < |idx| ==> EntryPid(es[idx[k]], m) == Some(SelectPids(es, m)[k])
    ensures forall k, l :: 0 <= k < l < |idx| ==> idx[k] < idx[l]
    ensures forall i :: 0 <= i < |es| && Selected(es[i], m) ==> i in idx
  {
    idx := CollectExactly(es, e => EntryPid(e, m));
  }

  /** An entry whose cmdline cannot be read is skipped and changes nothing else. */
  lemma UnreadableOnlySkips(a: seq<DirEntry>, e: DirEntry, b: seq<DirEntry>, m: Matcher)
    requires e.cmdline.Unreadable?
    ensures SelectPids(a + [e] + b, m) == SelectPids(a, m) + SelectPids(b, m)
  {
    var pick := (x: DirEntry) => EntryPid(x, m);
    CollectAppend(a + [e], b, pick);
    CollectAppend(a, [e], pick);
    assert [e][..0] == [];
    assert pick(e) == None;
  }

  /** The entries of the batches read before the end of the directory, in order. */
  function EntriesRead(bs: seq<Batch>): seq<DirEntry> {
    if bs == [] then []
    else
      match bs[0]
      case EndOfDir => []
      case ReadError => EntriesRead(bs[1..])
      case Entries(es) => es + EntriesRead(bs[1..])
  }

  /** Some batch before the end of the directory is an error. */
  predicate FailsBeforeEnd(bs: seq<Batch>) {
    if bs == [] then false
    else
      match bs[0]
      case EndOfDir => false
      case ReadError => true
      case Entries(_) => FailsBeforeEnd(bs[1..])
  }

  /**
   * The batched scan is nil exactly when a batch fails before the end of the
   * directory, and otherwise selects from all entries read as one sequence.
   */
  lemma {:induction false} ScanFlattens(bs: seq<Batch>, m: Matcher)
    ensures ScanBatches(bs, m) == if FailsBeforeEnd(bs) then Nil else Pids(SelectPids(EntriesRead(bs), m))
  {
    if bs != [] && bs[0].Entries? {
      ScanFlattens(bs[1..], m);
      SelectPidsAppend(bs[0].entries, EntriesRead(bs[1..]), m);
    }
  }

  /**
   * getPids returns nil exactly when /proc cannot be opened or a batch fails
   * before the end of the directory; otherwise a (possibly empty) list.
   */
  lemma ScanIsNilIff(dir: ProcDir, m: Matcher)
    ensures Scan(dir, m) == Nil <==> dir.OpenFailed? || FailsBeforeEnd(dir.batches)
  {
    if dir.Opened? {
      ScanFlattens(dir.batches, m);
    }
  }

  /** How the entries are cut into batches does not matter. */
  lemma BatchingIrrelevant(bs1: seq<Batch>, bs2: seq<Batch>, m: Matcher)
    requires !FailsBeforeEnd(bs1) && !FailsBeforeEnd(bs2)
    requires EntriesRead(bs1) == EntriesRead(bs2)
    ensures ScanBatches(bs1, m) == ScanBatches(bs2, m)
  {
    ScanFlattens(bs1, m);
    ScanFlattens(bs2, m);
  }

  /** A batch error before the end of the directory makes the whole scan nil. */
  lemma {:induction false} ReadErrorDiscards(bs: seq<Batch>, i: nat, m: Matcher)
    requires i < |bs| && bs[i].ReadError?
    requires forall j :: 0 <= j < i ==> !bs[j].EndOfDir?
    ensures ScanBatches(bs, m) == Nil
  {
    if i > 0 {
      assert forall j :: 0 <= j < i - 1 ==> bs[1..][j] == bs[j + 1];
      ReadErrorDiscards(bs[1..], i - 1, m);
    }
  }

  /** The scan from batch b on, one step unfolded. */
  lemma ScanBatchesFrom(bs: seq<Batch>, b: nat, m: Matcher)
    requires b < |bs|
    ensures ScanBatches(bs[b..], m) == match bs[b]
      case EndOfDir => Pids([])
      case ReadError => Nil
      case Entries(es) => Prepend(SelectPids(es, m), ScanBatches(bs[b + 1..], m))
  {
    assert bs[b..][0] == bs[b] && bs[b..][1..] == bs[b + 1..];
  }

  lemma PrependPrepend(p: seq<int>, q: seq<int>, l: PidList)
    ensures Prepend(p + q, l) == Prepend(p, Prepend(q, l))
  {
    if l.Pids? {
      assert p + q + l.pids == p + (q + l.pids);
    }
  }

  /**
   * The inner loop of getPids over one batch: test each entry in turn and
   * append the pid of each selected one to `found`.
   */
  method ScanEntries(ls: seq<DirEntry>, m: Matcher, found: seq<int>) returns (found': seq<int>)
    ensures found' == found + SelectPids(ls, m)
  {
    found' := found;
    var i := 0;
    while i < |ls|
      invariant 0 <= i <= |ls|
      invariant found' == found + SelectPids(ls[..i], m)
    {
      var entry := ls[i];
      i := i + 1;
      assert ls[..i][..i - 1] == ls[..i - 1] && ls[..i][i - 1] == entry;
      if !entry.isDir {
        continue;
      }
      var pid := Atoi(entry.name);
      if pid.None? {
        continue;
      }
      if entry.cmdline.Unreadable? {
        continue;
      }
      // SplitN never returns an empty slice, so getPids's `len(parts) == 0` check never fires.
      var parts := SplitN(entry.cmdline.data, '\0', 2);
      var exe := FieldsFunc(parts[0], IsFieldSeparator);
      if |exe| == 0 {
        continue;
      }
      if m(exe[0]) {
        found' := found' + [pid.value];
      }
    }
    assert ls[..i] == ls;
  }

  /**
   * getPids: read batches until the end of the directory, scanning the
   * entries of each; a batch error returns nil and drops what was collected.
   */
  method GetPids(dir: ProcDir, m: Matcher) returns (pids: PidList)
    ensures pids == Scan(dir, m)
  {
    if dir.OpenFailed? {
      return Nil;
    }
    var batches := dir.batches;
    var found: seq<int> := [];
    var b := 0;
    while b < |batches|
      invariant 0 <= b <= |batches|
      invariant Prepend(found, ScanBatches(batches[b..], m)) == ScanBatches(batches, m)
    {
      ScanBatchesFrom(batches, b, m);
      var batch := batches[b];
      if batch.EndOfDir? {
        break;
      }
      if batch.ReadError? {
        return Nil;
      }
      PrependPrepend(found, SelectPids(batch.entries, m), ScanBatches(batches[b + 1..], m));
      found := ScanEntries(batch.entries, m, found);
      b := b + 1;
    }
    assert found + [] == found;
    return Pids(found);
  }
}
