/**
 * Container name lookup: the path of the devices cgroup of a process, read
 * from its /proc/<pid>/cgroup file, whose lines are
 * `hierarchy-ID:subsystems:path`.
 */
module Cgroup {
  import opened Wrappers
  import opened Strings
  import opened Strconv

  const DevicesNotFound: string := "could not find devices cgroup location"

  /** A line that splits on ':' into exactly three fields, the middle one being "devices". */
  predicate IsDevicesLine(line: string) {
    var entries := SplitN(line, ':', 3);
    |entries| == 3 && entries[1] == "devices"
  }

  /** The third field of a devices line, untrimmed: all that follows its second colon. */
  function DevicesField(line: string): string
    requires IsDevicesLine(line)
  {
    SplitN(line, ':', 3)[2]
  }

  /** The trimmed third field of a devices line. */
  function DevicesPath(line: string): string
    requires IsDevicesLine(line)
  {
    TrimSpace(DevicesField(line))
  }

  /**
   * The loop of containerNameFromProcCgroup. With k the index of the first
   * devices line (IndexFunc), the result is that line's trimmed third field;
   * later devices lines play no part; with no devices line it is the
   * "not found" error.
   */
  function FirstDevicesPath(lines: seq<string>): (r: Result<string>)
    ensures var k := IndexFunc(lines, IsDevicesLine);
      r == if k < |lines| then Ok(DevicesPath(lines[k])) else Err(Text(DevicesNotFound))
  {
    if lines == [] then Err(Text(DevicesNotFound))
    else
      var entries := SplitN(lines[0], ':', 3);
      if |entries| == 3 && entries[1] == "devices" then Ok(TrimSpace(entries[2]))
      else FirstDevicesPath(lines[1..])
  }

  /** containerNameFromProcCgroup: the first devices line among the lines of `content` decides. */
  function ContainerNameFromProcCgroup(content: string): (r: Result<string>)
    ensures var lines := Split(content, '\n'); var k := IndexFunc(lines, IsDevicesLine);
      r == if k < |lines| then Ok(DevicesPath(lines[k])) else Err(Text(DevicesNotFound))
  {
    FirstDevicesPath(Split(content, '\n'))
  }

  /**
   * Every `a:devices:c` with no ':' in `a` is a devices line whose path is the
   * trimmed `c`, whatever colons `c` itself holds (the split stops at three fields).
   */
  lemma DevicesLineFromParts(a: string, c: string)
    requires forall i :: 0 <= i < |a| ==> a[i] != ':'
    ensures IsDevicesLine(a + ":devices:" + c)
    ensures DevicesField(a + ":devices:" + c) == c
  {
    var line := a + ":devices:" + c;
    assert line == a + [':'] + ("devices" + [':'] + c);
    SplitNFirst(a, ':', "devices" + [':'] + c, 3);
    SplitDevicesRest(c);
    assert SplitN(line, ':', 3) == [a, "devices", c];
  }

  /** After the first colon of a devices line: "devices", then everything else. */
  lemma SplitDevicesRest(c: string)
    ensures SplitN("devices" + [':'] + c, ':', 2) == ["devices", c]
  {
    var devices := "devices";
    assert forall i :: 0 <= i < |devices| ==> devices[i] != ':';
    SplitNFirst(devices, ':', c, 2);
    assert SplitN(c, ':', 1) == [c];
  }

  /** Conversely, a devices line is `a:devices:c` where `a` ends at its first colon. */
  lemma DevicesLineParts(line: string)
    requires IsDevicesLine(line)
    ensures var k := IndexOf(line, ':');
      k + 9 <= |line| && line == line[..k] + ":devices:" + line[k + 9..]
      && DevicesField(line) == line[k + 9..]
  {
    var k := IndexOf(line, ':');
    SplitNUnfold(line, ':', 3);
    var a, rest := line[..k], line[k + 1..];
    SplitNUnfold(rest, ':', 2);
    var k2 := IndexOf(rest, ':');
    var b, c := rest[..k2], rest[k2 + 1..];
    assert SplitN(c, ':', 1) == [c];
    Reassemble(line, a, b, c);
  }

  lemma Reassemble(line: string, a: string, b: string, c: string)
    requires line == a + [':'] + (b + [':'] + c) && b == "devices"
    ensures line == a + ":devices:" + c
  {
  }

  /** A one-line file: the leading '/' of the path is kept, only white space is trimmed. */
  lemma OneDockerLine()
    ensures ContainerNameFromProcCgroup("4:devices:/docker/nginx") == Ok("/docker/nginx")
  {
    var content := "4:devices:/docker/nginx";
    OneDockerLineSplit();
    OneDockerLineParts();
    DevicesLineFromParts("4", "/docker/nginx");
    var lines := [content];
    assert IsDevicesLine(lines[0]);
    assert IndexFunc(lines, IsDevicesLine) == 0;
    OneDockerPathTrimmed();
  }

  lemma OneDockerLineParts()
    ensures "4" + ":devices:" + "/docker/nginx" == "4:devices:/docker/nginx"
  {
  }

  lemma OneDockerLineSplit()
    ensures Split("4:devices:/docker/nginx", '\n') == ["4:devices:/docker/nginx"]
  {
    OneDockerLineNoNewline();
  }

  lemma OneDockerLineNoNewline()
    ensures IndexOf("4:devices:/docker/nginx", '\n') == |"4:devices:/docker/nginx"|
  {
    var content := "4:devices:/docker/nginx";
    assert forall i :: 0 <= i < |content| ==> content[i] != '\n';
    IndexOfAbsent(content, '\n');
  }

  lemma OneDockerPathTrimmed()
    ensures TrimSpace("/docker/nginx") == "/docker/nginx"
  {
    TrimFuncTrimmed("/docker/nginx", IsSpace);
  }

  /** What a read of the cgroup file gives: its contents, or an error that may be "does not exist". */
  datatype FileRead = Contents(data: string) | ReadFailed(msg: string, notExist: bool)

  /** The cgroup file of a process, as path.Join("/proc", strconv.Itoa(pid), "cgroup") forms it. */
  function CgroupPath(pid: int): (p: string)
    ensures |p| > 13 && p[..6] == "/proc/" && p[|p| - 7..] == "/cgroup"
    ensures MinInt <= pid <= MaxInt ==> Atoi(p[6..|p| - 7]) == Some(pid)
  {
    var p := "/proc/" + Itoa(pid) + "/cgroup";
    assert p[6..|p| - 7] == Itoa(pid);
    assert MinInt <= pid <= MaxInt ==> Atoi(Itoa(pid)) == Some(pid) by {
      if MinInt <= pid <= MaxInt {
        AtoiItoa(pid);
      }
    }
    p
  }

  /**
   * GetFullContainerName, with the file system given as `readFile`: a missing
   * file is reported as NotExist and as nothing else, any other read error is
   * passed on, and readable contents are parsed.
   */
  function GetFullContainerName(pid: int, readFile: string -> FileRead): (r: Result<string>)
    ensures var read := readFile(CgroupPath(pid));
      r == Err(NotExist) <==> read.ReadFailed? && read.notExist
    ensures var read := readFile(CgroupPath(pid));
      read.ReadFailed? && !read.notExist ==> r == Err(Text(read.msg))
    ensures var read := readFile(CgroupPath(pid));
      read.Contents? ==> r == ContainerNameFromProcCgroup(read.data)
  {
    match readFile(CgroupPath(pid))
    case ReadFailed(msg, notExist) => if notExist then Err(NotExist) else Err(Text(msg))
    case Contents(data) => ContainerNameFromProcCgroup(data)
  }
}
