/** Normalising a path with a segment table, a character pool and an output buffer. */
module FsPath {
  import opened Words
  import opened PathAlgebra

  datatype Span = Span(offset: nat, length: nat)

  /** The stack that a segment table and its pool stand for. */
  ghost predicate Shows(segments: seq<Span>, pool: seq<char>, stack: seq<string>, used: nat) {
    && |stack| <= |segments| && used <= |pool|
    && forall i :: 0 <= i < |stack| ==>
         && segments[i].length == |stack[i]| && segments[i].offset + segments[i].length < used
         && pool[segments[i].offset..segments[i].offset + segments[i].length] == stack[i]
  }

  lemma ShowsPush(segments: seq<Span>, pool: seq<char>, stack: seq<string>, used: nat,
                  after: seq<Span>, grown: seq<char>, name: string)
    requires Shows(segments, pool, stack, used) && |stack| < |segments| && used + |name| + 1 <= |pool|
    requires after == segments[|stack| := Span(used, |name|)]
    requires |grown| == |pool| && grown[..used] == pool[..used] && grown[used..used + |name|] == name
    ensures Shows(after, grown, stack + [name], used + |name| + 1)
  {
    assert forall k :: 0 <= k < used ==> grown[k] == grown[..used][k] == pool[..used][k] == pool[k];
    forall i | 0 <= i < |stack|
      ensures grown[segments[i].offset..segments[i].offset + segments[i].length] == stack[i]
    {
      SameSlice(pool, grown, used, segments[i].offset, segments[i].offset + segments[i].length);
    }
    var now := stack + [name];
    assert forall i :: 0 <= i < |stack| ==> now[i] == stack[i];
  }

  lemma SameSlice(a: seq<char>, b: seq<char>, used: nat, from: nat, to: nat)
    requires from <= to <= used <= |a| && |a| == |b|
    requires forall k :: 0 <= k < used ==> b[k] == a[k]
    ensures b[from..to] == a[from..to]
  {
  }

  /** The number of pushed names is bounded by the room they take. */
  ghost predicate Bounded(stack: seq<string>, used: nat) {
    2 * |stack| <= used && used <= PATH_MAX
  }

  /** What the whole path comes to, seen from the middle of the walk. */
  ghost predicate OnTrack(path: string, absolute: bool, stack: seq<string>, used: nat, rest: string) {
    && GoAll([], Components(path), absolute) == GoAll(stack, Components(rest), absolute)
    && RoomAll([], Components(path), absolute) == used + RoomAll(stack, Components(rest), absolute)
    && AreNames(stack)
  }

  lemma TrackSlash(path: string, absolute: bool, stack: seq<string>, used: nat, rest: string)
    requires OnTrack(path, absolute, stack, used, rest) && rest != "" && rest[0] == '/'
    ensures OnTrack(path, absolute, stack, used, rest[1..])
  {
  }

  lemma TrackName(path: string, absolute: bool, stack: seq<string>, used: nat, rest: string)
    requires OnTrack(path, absolute, stack, used, rest) && StartsName(rest)
    ensures IsName(FirstName(rest))
    ensures OnTrack(path, absolute, Go(stack, FirstName(rest), absolute),
                    used + Room(stack, FirstName(rest), absolute), AfterName(rest))
    ensures used + Room(stack, FirstName(rest), absolute) <= RoomAll([], Components(path), absolute)
  {
    hide Components, FirstName, AfterName, StartsName, Go, Room, GoAll, RoomAll, IsName, AreNames;
    NextComponent(rest);
    GoOnce(stack, FirstName(rest), Components(AfterName(rest)), absolute);
    GoNames(stack, FirstName(rest), absolute);
  }

  lemma NextComponent(rest: string)
    requires StartsName(rest)
    ensures IsName(FirstName(rest)) && Components(rest) == [FirstName(rest)] + Components(AfterName(rest))
  {
  }

  lemma GoOnce(stack: seq<string>, name: string, more: seq<string>, absolute: bool)
    ensures GoAll(stack, [name] + more, absolute) == GoAll(Go(stack, name, absolute), more, absolute)
    ensures RoomAll(stack, [name] + more, absolute) == Room(stack, name, absolute) + RoomAll(Go(stack, name, absolute),
            more, absolute)
  {
    assert ([name] + more)[1..] == more;
  }

  lemma GoNames(stack: seq<string>, name: string, absolute: bool)
    requires AreNames(stack) && IsName(name)
    ensures AreNames(Go(stack, name, absolute))
  {
  }

  method CopyInto(dst: array<char>, at: nat, src: string)
    requires at + |src| <= dst.Length
    modifies dst
    ensures dst[at..at + |src|] == src
    ensures dst[..at] == old(dst[..at]) && dst[at + |src|..] == old(dst[at + |src|..])
  {
    var i := 0;
    while i < |src|
      invariant 0 <= i <= |src|
      invariant forall j :: 0 <= j < i ==> dst[at + j] == src[j]
      invariant forall j :: 0 <= j < at || at + |src| <= j < dst.Length ==> dst[j] == old(dst[j])
    {
      dst[at + i] := src[i];
      i := i + 1;
    }
  }

  method SkipSlashes(path: string, from: nat, ghost absolute: bool, ghost stack: seq<string>, ghost used: nat)
    returns (i: nat)
    requires from <= |path| && OnTrack(path, absolute, stack, used, path[from..])
    ensures from <= i <= |path| && OnTrack(path, absolute, stack, used, path[i..])
    ensures i == |path| || path[i] != '/'
  {
    i := from;
    while i < |path| && path[i] == '/'
      invariant from <= i <= |path| && OnTrack(path, absolute, stack, used, path[i..])
    {
      TrackSlash(path, absolute, stack, used, path[i..]);
      assert path[i..][1..] == path[i + 1..];
      i := i + 1;
    }
  }

  method NameEnd(path: string, start: nat) returns (i: nat)
    requires start < |path| && path[start] != '/'
    ensures start < i <= |path|
    ensures path[start..i] == FirstName(path[start..]) && path[i..] == AfterName(path[start..])
  {
    i := start;
    while i < |path| && path[i] != '/'
      invariant start <= i <= |path|
      invariant forall j :: start <= j < i ==> path[j] != '/'
    {
      i := i + 1;
    }
    FirstNameOf(path[start..i], path[i..]);
    assert path[start..i] + path[i..] == path[start..];
  }

  /** The walk so far: the tables show the stack, and all pushed names are accounted for. */
  ghost predicate Walking(segments: array<Span>, pool: array<char>, stack: seq<string>, count: nat, used: nat)
    reads segments, pool
  {
    && segments.Length == SEGMENT_MAX && pool.Length == PATH_MAX && count == |stack|
    && Shows(segments[..], pool[..], stack, used) && Bounded(stack, used)
  }

  method Push(segments: array<Span>, pool: array<char>, ghost stack: seq<string>, count: nat, used: nat, name: string)
    returns (ok: bool)
    requires Walking(segments, pool, stack, count, used) && IsName(name)
    modifies segments, pool
    ensures ok == (used + |name| + 1 <= PATH_MAX)
    ensures ok ==> Walking(segments, pool, stack + [name], count + 1, used + |name| + 1)
  {
    if count >= SEGMENT_MAX || |name| >= PATH_MAX || used + |name| + 1 > PATH_MAX {
      return false;
    }
    ghost var wasSegments, wasPool := segments[..], pool[..];
    hide Shows;
    CopyInto(pool, used, name);
    assert pool[..used] == wasPool[..used];
    pool[used + |name|] := '\0';
    segments[count] := Span(used, |name|);
    assert pool[..][..used] == wasPool[..used] && pool[..][used..used + |name|] == name;
    ShowsPush(wasSegments, wasPool, stack, used, segments[..], pool[..], name);
    return true;
  }

  lemma ShowsPop(segments: seq<Span>, pool: seq<char>, stack: seq<string>, used: nat)
    requires Shows(segments, pool, stack, used) && stack != []
    ensures Shows(segments, pool, stack[..|stack| - 1], used)
    ensures var last := segments[|stack| - 1];
            last.offset + last.length < used && pool[last.offset..last.offset + last.length] == stack[|stack| - 1]
  {
  }

  /** One name: skipped, popped, or pushed when there is room. */
  method TakeName(segments: array<Span>, pool: array<char>, ghost stack: seq<string>, count: nat, used: nat,
                  name: string, absolute: bool)
    returns (ok: bool, newCount: nat, newUsed: nat)
    requires Walking(segments, pool, stack, count, used) && IsName(name)
    modifies segments, pool
    ensures ok == (used + Room(stack, name, absolute) <= PATH_MAX)
    ensures ok ==>
              newUsed == used + Room(stack, name, absolute)
              && Walking(segments, pool, Go(stack, name, absolute), newCount, newUsed)
  {
    hide Shows;
    if name == "." {
      return true, count, used;
    }
    if name == ".." {
      if count > 0 {
        var last := segments[count - 1];
        ShowsPop(segments[..], pool[..], stack, used);
        assert pool[last.offset..last.offset + last.length] == stack[count - 1];
        if !(last.length == 2 && pool[last.offset] == '.' && pool[last.offset + 1] == '.') {
          return true, count - 1, used;
        }
      }
      if absolute {
        return true, count, used;
      }
    }
    assert Go(stack, name, absolute) == stack + [name];
    ok := Push(segments, pool, stack, count, used, name);
    return ok, count + 1, used + |name| + 1;
  }

  /** The next name of the path. */
  method WalkName(path: string, start: nat, absolute: bool, segments: array<Span>, pool: array<char>,
                  ghost stack: seq<string>, count: nat, used: nat)
    returns (ok: bool, i: nat, newCount: nat, newUsed: nat, ghost next: seq<string>)
    requires start < |path| && path[start] != '/'
    requires Walking(segments, pool, stack, count, used) && OnTrack(path, absolute, stack, used, path[start..])
    modifies segments, pool
    ensures start < i <= |path|
    ensures !ok ==> RoomAll([], Components(path), absolute) > PATH_MAX
    ensures ok ==> Walking(segments, pool, next, newCount, newUsed) && OnTrack(path, absolute, next, newUsed, path[i..])
  {
    StartsHere(path, start);
    hide *;
    i := NameEnd(path, start);
    var name := path[start..i];
    TrackName(path, absolute, stack, used, path[start..]);
    ok, newCount, newUsed := TakeName(segments, pool, stack, count, used, name, absolute);
    next := Go(stack, name, absolute);
  }

  /** The first pass: the path's names folded into the tables. */
  method Walk(path: string, absolute: bool, segments: array<Span>, pool: array<char>)
    returns (ok: bool, count: nat, ghost stack: seq<string>, ghost used: nat)
    requires segments.Length == SEGMENT_MAX && pool.Length == PATH_MAX
    modifies segments, pool
    ensures ok == (RoomAll([], Components(path), absolute) <= PATH_MAX)
    ensures ok ==>
              stack == GoAll([], Components(path), absolute) && AreNames(stack)
              && Walking(segments, pool, stack, count, used)
  {
    var i, taken := 0, 0;
    ok, count, stack, used := true, 0, [], 0;
    assert path[0..] == path;
    assert OnTrack(path, absolute, [], 0, path) && Walking(segments, pool, [], 0, 0);
    hide *;
    while i < |path|
      invariant i <= |path| && used == taken && ok
      invariant Walking(segments, pool, stack, count, taken)
      invariant OnTrack(path, absolute, stack, taken, path[i..])
    {
      i := SkipSlashes(path, i, absolute, stack, taken);
      if i == |path| {
        break;
      }
      ok, i, count, taken, stack := WalkName(path, i, absolute, segments, pool, stack, count, taken);
      if !ok {
        return;
      }
      used := taken;
    }
    TrackEnd(path, absolute, stack, taken);
    WalkingFits(segments, pool, stack, count, taken);
  }

  lemma StartsHere(path: string, start: nat)
    requires start < |path| && path[start] != '/'
    ensures StartsName(path[start..])
  {
  }

  lemma WalkingFits(segments: array<Span>, pool: array<char>, stack: seq<string>, count: nat, used: nat)
    requires Walking(segments, pool, stack, count, used)
    ensures used <= PATH_MAX
  {
  }

  lemma TrackEnd(path: string, absolute: bool, stack: seq<string>, used: nat)
    requires OnTrack(path, absolute, stack, used, "")
    ensures GoAll([], Components(path), absolute) == stack && RoomAll([], Components(path), absolute) == used
            && AreNames(stack)
  {
  }

  // ----- the second pass

  /** A terminated string at the start of a buffer. */
  predicate HoldsText(buffer: seq<char>, text: string) {
    |text| < |buffer| && buffer[..|text|] == text && buffer[|text|] == '\0'
  }

  lemma {:induction false} JoinedMore(stack: seq<string>, name: string)
    ensures Joined(stack + [name]) == if stack == [] then name else Joined(stack) + "/" + name
  {
    if |stack| == 1 {
      assert (stack + [name])[1..] == [name];
    } else if |stack| > 1 {
      assert (stack + [name])[1..] == stack[1..] + [name];
      JoinedMore(stack[1..], name);
      var more := Joined(stack[1..]);
      assert stack[0] + "/" + (more + "/" + name) == stack[0] + "/" + more + "/" + name;
    }
  }

  lemma {:induction false} JoinedPrefix(stack: seq<string>, n: nat)
    requires n <= |stack|
    ensures |Joined(stack[..n])| <= |Joined(stack)|
    decreases |stack| - n
  {
    if n == |stack| {
      assert stack[..n] == stack;
    } else {
      JoinedMore(stack[..n], stack[n]);
      assert stack[..n + 1] == stack[..n] + [stack[n]];
      JoinedPrefix(stack, n + 1);
    }
  }

  function Lead(absolute: bool): string {
    if absolute then "/" else ""
  }

  lemma PrintIs(stack: seq<string>, absolute: bool)
    requires stack != [] || absolute
    ensures Print(stack, absolute) == Lead(absolute) + Joined(stack)
  {
    assert "" + Joined(stack) == Joined(stack);
  }

  /** What is printed of the first names. */
  ghost function Printed(stack: seq<string>, n: nat, absolute: bool): string
    requires n <= |stack|
  {
    Lead(absolute) + Joined(stack[..n])
  }

  lemma PrintedNext(stack: seq<string>, n: nat, absolute: bool)
    requires n < |stack|
    ensures Printed(stack, n + 1, absolute) == Printed(stack, n, absolute) + (if n > 0 then "/" else "") + stack[n]
    ensures |Printed(stack, n + 1, absolute)| <= |Print(stack, absolute)|
  {
    assert stack[..n + 1] == stack[..n] + [stack[n]];
    JoinedMore(stack[..n], stack[n]);
    JoinedPrefix(stack, n + 1);
    PrintIs(stack, absolute);
    assert n == 0 ==> Joined(stack[..n]) == "";
    var lead, before, name := Lead(absolute), Joined(stack[..n]), stack[n];
    hide *;
    Regroup(lead, before, name);
    PrintedIs(stack, n, absolute);
    PrintedIs(stack, n + 1, absolute);
  }

  lemma PrintedIs(stack: seq<string>, n: nat, absolute: bool)
    requires n <= |stack|
    ensures Printed(stack, n, absolute) == Lead(absolute) + Joined(stack[..n])
  {
  }

  lemma Regroup(lead: string, before: string, name: string)
    ensures lead + (before + "/" + name) == lead + before + "/" + name
    ensures lead + "" + "" + name == lead + name
  {
  }

  /** One name, after a slash when it is not the first. */
  method EmitName(out: array<char>, size: nat, at: nat, first: bool, name: string, ghost text: string)
    returns (ok: bool, next: nat)
    requires size <= out.Length && at == |text| < size && out[..at] == text && IsName(name)
    modifies out
    ensures var more := text + (if first then "" else "/") + name;
            && ok == (|more| < size)
            && (ok ==> next == |more| && out[..next] == more)
  {
    next := at;
    ghost var lead := text;
    if !first {
      if next + 2 > size {
        return false, next;
      }
      out[next] := '/';
      next := next + 1;
      lead := text + "/";
    }
    assert out[..next] == lead == text + (if first then "" else "/");
    if next + |name| + 1 > size {
      return false, next;
    }
    CopyInto(out, next, name);
    assert out[..next + |name|] == out[..next] + out[next..next + |name|];
    return true, next + |name|;
  }

  method EmitNext(segments: array<Span>, pool: array<char>, ghost stack: seq<string>, ghost count: nat, ghost used: nat,
                  absolute: bool, out: array<char>, size: nat, i: nat, at: nat) returns (ok: bool, next: nat)
    requires Walking(segments, pool, stack, count, used) && AreNames(stack) && i < count
    requires out != pool && segments as object != out && size <= out.Length
    requires at == |Printed(stack, i, absolute)| < size && out[..at] == Printed(stack, i, absolute)
    modifies out
    ensures Walking(segments, pool, stack, count, used)
    ensures !ok ==> |Print(stack, absolute)| >= size
    ensures ok ==> next == |Printed(stack, i + 1, absolute)| < size && out[..next] == Printed(stack, i + 1, absolute)
  {
    var segment := segments[i];
    SegmentIs(segments[..], pool[..], stack, used, i);
    var name := pool[segment.offset..segment.offset + segment.length];
    assert name == stack[i];
    PrintedNext(stack, i, absolute);
    hide Shows, Printed, Print;
    ok, next := EmitName(out, size, at, i == 0, name, Printed(stack, i, absolute));
  }

  method EmitNames(segments: array<Span>, pool: array<char>, ghost stack: seq<string>, count: nat, ghost used: nat,
                   absolute: bool, out: array<char>, size: nat) returns (ok: bool)
    requires Walking(segments, pool, stack, count, used) && AreNames(stack) && stack != []
    requires out != pool && segments as object != out
    requires |Lead(absolute)| < size <= out.Length && out[..|Lead(absolute)|] == Lead(absolute)
    modifies out
    ensures ok == (|Print(stack, absolute)| < size)
    ensures ok ==> HoldsText(out[..], Print(stack, absolute))
  {
    var at := |Lead(absolute)|;
    assert Printed(stack, 0, absolute) == Lead(absolute) by {
      assert stack[..0] == [];
      assert Lead(absolute) + "" == Lead(absolute);
    }
    assert count == |stack|;
    hide *;
    var i := 0;
    while i < count
      invariant 0 <= i <= count && Walking(segments, pool, stack, count, used)
      invariant at == |Printed(stack, i, absolute)| < size && out[..at] == Printed(stack, i, absolute)
    {
      ok, at := EmitNext(segments, pool, stack, count, used, absolute, out, size, i, at);
      if !ok {
        return;
      }
      i := i + 1;
    }
    AllPrinted(stack, absolute);
    Terminate(out, at, Print(stack, absolute));
    return true;
  }

  method Terminate(out: array<char>, at: nat, ghost text: string)
    requires at == |text| < out.Length && out[..at] == text
    modifies out
    ensures HoldsText(out[..], text)
  {
    out[at] := '\0';
    assert out[..][..at] == out[..at];
  }

  lemma SegmentIs(segments: seq<Span>, pool: seq<char>, stack: seq<string>, used: nat, i: nat)
    requires Shows(segments, pool, stack, used) && i < |stack|
    ensures i < |segments| && segments[i].offset + segments[i].length < used <= |pool|
    ensures pool[segments[i].offset..segments[i].offset + segments[i].length] == stack[i]
  {
  }

  lemma AllPrinted(stack: seq<string>, absolute: bool)
    requires stack != []
    ensures Printed(stack, |stack|, absolute) == Print(stack, absolute)
  {
    assert stack[..|stack|] == stack;
    PrintIs(stack, absolute);
  }

  /** The second pass: the stack printed, when the buffer is large enough. */
  method Emit(segments: array<Span>, pool: array<char>, ghost stack: seq<string>, count: nat, ghost used: nat,
              absolute: bool, out: array<char>, size: nat) returns (ok: bool)
    requires Walking(segments, pool, stack, count, used) && AreNames(stack)
    requires out != pool && segments as object != out && size <= out.Length
    modifies out
    ensures ok == (|Print(stack, absolute)| < size)
    ensures ok ==> HoldsText(out[..], Print(stack, absolute))
  {
    if absolute {
      if 2 > size {
        PrintIs(stack, absolute);
        return false;
      }
      out[0] := '/';
      assert out[..1] == "/";
    }
    if count == 0 {
      assert stack == [];
      if !absolute {
        if size < 2 {
          return false;
        }
        out[0] := '.';
        out[1] := '\0';
        return true;
      }
      out[1] := '\0';
      assert out[..1] == "/";
      return true;
    }
    if !absolute && size == 0 {
      return false;
    }
    ok := EmitNames(segments, pool, stack, count, used, absolute, out, size);
  }

  // ----- the operations

  /** Normalising in place of buffers is normalising. */
  method NormalizePath(path: CString, out: array<char>, size: nat) returns (ok: bool)
    requires size <= out.Length
    modifies out
    ensures ok == Normalize(path, size).Some?
    ensures ok ==> HoldsText(out[..], Normalize(path, size).value)
  {
    if size == 0 || path == "" {
      return false;
    }
    var absolute := path[0] == '/';
    var segments, pool := new Span[SEGMENT_MAX](_ => Span(0, 0)), new char[PATH_MAX](_ => '\0');
    var count;
    ghost var stack, used;
    hide Components, GoAll, RoomAll, Walking, Print;
    ok, count, stack, used := Walk(path, absolute, segments, pool);
    if !ok {
      return false;
    }
    ok := Emit(segments, pool, stack, count, used, absolute, out, size);
  }

  /** The text in a buffer, up to its terminator. */
  method ReadText(buffer: array<char>, ghost text: string) returns (s: string)
    requires HoldsText(buffer[..], text) && NoNul(text)
    ensures s == text
  {
    var length := 0;
    while buffer[length] != '\0'
      invariant 0 <= length <= |text|
      decreases |text| - length
    {
      assert buffer[length] == text[length];
      length := length + 1;
    }
    s := buffer[..length];
  }

  /** The directory, a slash unless it is the root, and the path, in one buffer. */
  method JoinPaths(here: string, path: CString) returns (s: CString)
    requires NoNul(here) && here != "" && |here| + |path| + 2 <= PATH_MAX
    ensures s == Beside(here, path)
  {
    var joined := new char[PATH_MAX](_ => '\0');
    ghost var text := Beside(here, path);
    if here == "/" {
      joined[0] := '/';
      CopyInto(joined, 1, path);
      assert joined[..1 + |path|] == joined[..1] + joined[1..1 + |path|];
      return joined[..1 + |path|];
    }
    CopyInto(joined, 0, here);
    assert joined[..|here|] == joined[0..|here|] == here;
    joined[|here|] := '/';
    assert joined[..|here| + 1] == here + "/";
    CopyInto(joined, |here| + 1, path);
    assert joined[..|here| + 1 + |path|] == joined[..|here| + 1] + joined[|here| + 1..|here| + 1 + |path|];
    return joined[..|here| + 1 + |path|];
  }

  /** Resolving with buffers is resolving. */
  method ResolvePath(cwd: CString, path: CString, out: array<char>, size: nat) returns (ok: bool)
    requires size <= out.Length
    modifies out
    ensures ok == Resolve(cwd, path, size).Some?
    ensures ok ==> HoldsText(out[..], Resolve(cwd, path, size).value)
  {
    hide Normalize, Beside;
    if size == 0 {
      return false;
    }
    var buffer := new char[PATH_MAX](_ => '\0');
    var known := NormalizePath(cwd, buffer, PATH_MAX);
    if !known || buffer[0] != '/' {
      if known {
        NormalForm(cwd, buffer[..]);
      }
      return false;
    }
    NormalForm(cwd, buffer[..]);
    if path != "" && path[0] == '/' {
      ok := NormalizePath(path, out, size);
      return;
    }
    var here := ReadText(buffer, Normalize(cwd, PATH_MAX).value);
    if path == "" {
      ok := NormalizePath(here, out, size);
      return;
    }
    if |here| + |path| + 2 > PATH_MAX {
      return false;
    }
    var joined := JoinPaths(here, path);
    ok := NormalizePath(joined, out, size);
  }

  /** The first character tells whether a normal form is absolute. */
  lemma NormalForm(path: CString, buffer: seq<char>)
    requires Normalize(path, PATH_MAX).Some? && HoldsText(buffer, Normalize(path, PATH_MAX).value)
    ensures NoNul(Normalize(path, PATH_MAX).value) && Normalize(path, PATH_MAX).value != ""
    ensures IsAbsolute(Normalize(path, PATH_MAX).value) == (buffer[0] == '/')
  {
    var text := Normalize(path, PATH_MAX).value;
    NormalizeNoNul(path, PATH_MAX);
    NormalizeFolds(path, PATH_MAX);
    RelativePrint(GoAll([], Components(path), IsAbsolute(path)), IsAbsolute(path));
    assert text != "" ==> buffer[..|text|][0] == buffer[0];
  }
}
