/** Cutting a path into names: strtok over a writable copy, and the last name of a path. */
module Paths {
  import opened Bytes

  const SLASH: byte := 0x2F

  /** The part of `s` before its first slash. */
  function Head(s: seq<byte>): (r: seq<byte>)
    ensures |r| <= |s|
  {
    if s == [] || s[0] == SLASH then [] else [s[0]] + Head(s[1..])
  }

  /** The part of `s` behind its first slash. */
  function Tail(s: seq<byte>): (r: seq<byte>)
    ensures |r| <= |s| && (s != [] ==> |r| < |s|)
  {
    if |Head(s)| < |s| then s[|Head(s)| + 1..] else []
  }

  predicate NonEmpty(segs: seq<seq<byte>>) {
    forall i :: 0 <= i < |segs| ==> segs[i] != []
  }

  /** The names a path is walked by: the walk ends at the first empty one. */
  function Segments(s: seq<byte>): (segs: seq<seq<byte>>)
    ensures NonEmpty(segs)
    decreases |s|
  {
    if Head(s) == [] then [] else [Head(s)] + Segments(Tail(s))
  }

  lemma {:induction false} HeadIsPrefix(s: seq<byte>)
    ensures Head(s) <= s && SLASH !in Head(s) && (|Head(s)| < |s| ==> s[|Head(s)|] == SLASH)
  {
    if s != [] && s[0] != SLASH {
      HeadIsPrefix(s[1..]);
    }
  }

  lemma {:induction false} HeadOf(a: seq<byte>, b: seq<byte>)
    requires SLASH !in a && (b == [] || b[0] == SLASH)
    ensures Head(a + b) == a
  {
    if a != [] {
      assert (a + b)[1..] == a[1..] + b;
      HeadOf(a[1..], b);
    } else {
      assert a + b == b;
    }
  }

  /** The C string that starts at `i`: up to the first zero byte. */
  function StringAt(b: seq<byte>, i: nat): seq<byte>
    requires i <= |b|
    decreases |b| - i
  {
    if i == |b| || b[i] == 0 then [] else [b[i]] + StringAt(b, i + 1)
  }

  lemma {:induction false} StringIs(b: seq<byte>, i: nat, s: seq<byte>)
    requires i + |s| < |b| && b[i..i + |s|] == s && 0 !in s && b[i + |s|] == 0
    ensures StringAt(b, i) == s
    decreases |s|
  {
    if s != [] {
      assert b[i] == s[0] && s[0] in s;
      assert b[i + 1..i + 1 + |s[1..]|] == s[1..];
      StringIs(b, i + 1, s[1..]);
    }
  }

  /** strtok with its static cursor: cuts names off a zero-terminated buffer by overwriting the delimiters. */
  class Tokenizer {
    const buffer: array<byte>
    var last: nat

    ghost predicate Valid()
      reads this, buffer
    {
      last < buffer.Length && buffer[buffer.Length - 1] == 0 && 0 !in buffer[last..buffer.Length - 1]
    }

    /** What has not been cut yet. */
    ghost function Rest(): seq<byte>
      reads this, buffer
      requires Valid()
    {
      buffer[last..buffer.Length - 1]
    }

    /** A copy of `path`, zero-terminated, with the cursor at `start`. */
    constructor (path: seq<byte>, start: nat)
      requires 0 !in path && start <= |path|
      ensures Valid() && Rest() == path[start..] && fresh(buffer)
    {
      buffer := new byte[|path| + 1](i => if 0 <= i < |path| then path[i] else 0);
      last := start;
      new;
      assert buffer[start..|path|] == path[start..];
    }

    /** Returns where the next name starts; that name is now a C string, and earlier names are left alone. */
    method Next() returns (begin: nat)
      requires Valid()
      modifies this, buffer
      ensures Valid() && begin == old(last) <= last
      ensures StringAt(buffer[..], begin) == Head(old(Rest()))
      ensures Rest() == Tail(old(Rest()))
      ensures buffer[..begin] == old(buffer[..begin])
      ensures begin + |Head(old(Rest()))| < buffer.Length
    {
      hide StringAt, Head, Tail;
      ghost var before := buffer[..];
      begin := last;
      while buffer[last] != 0
        invariant begin <= last < buffer.Length && buffer[..] == before
        invariant SLASH !in buffer[begin..last]
        decreases buffer.Length - last
      {
        RestIsNonZero(before, begin);
        if buffer[last] == SLASH {
          CutAtSlash(before, begin, last);
          buffer[last] := 0;
          last := last + 1;
          assert buffer[..] == before[last - 1 := 0];
          assert buffer[last..buffer.Length - 1] == before[last..buffer.Length - 1];
          return;
        }
        last := last + 1;
      }
      RestIsNonZero(before, begin);
      CutAtEnd(before, begin);
    }
  }

  lemma RestIsNonZero(b: seq<byte>, begin: nat)
    requires begin < |b| && 0 !in b[begin..|b| - 1]
    ensures forall i :: begin <= i < |b| - 1 ==> b[i] != 0
  {
    forall i | begin <= i < |b| - 1 ensures b[i] != 0 {
      assert b[i] == b[begin..|b| - 1][i - begin];
    }
  }

  /** Overwriting the first slash with a zero byte makes the name a C string and leaves the rest behind it. */
  lemma CutAtSlash(b: seq<byte>, begin: nat, at: nat)
    requires begin <= at < |b| - 1 && 0 !in b[begin..|b| - 1] && SLASH !in b[begin..at] && b[at] == SLASH
    ensures var rest := b[begin..|b| - 1];
      && Head(rest) == b[begin..at] && Tail(rest) == b[at + 1..|b| - 1] && 0 !in b[at + 1..|b| - 1]
      && StringAt(b[at := 0], begin) == Head(rest)
  {
    hide StringAt, Head;
    var rest, name := b[begin..|b| - 1], b[begin..at];
    assert rest == name + b[at..|b| - 1];
    HeadOf(name, b[at..|b| - 1]);
    assert forall c :: c in name ==> c in rest;
    assert forall c :: c in b[at + 1..|b| - 1] ==> c in rest;
    assert b[at := 0][begin..begin + |name|] == name;
    StringIs(b[at := 0], begin, name);
  }

  lemma CutAtEnd(b: seq<byte>, begin: nat)
    requires begin < |b| && 0 !in b[begin..|b| - 1] && b[|b| - 1] == 0 && SLASH !in b[begin..|b| - 1]
    ensures var rest := b[begin..|b| - 1];
      Head(rest) == rest && Tail(rest) == [] && StringAt(b, begin) == rest
  {
    var rest := b[begin..|b| - 1];
    HeadOf(rest, []);
    assert rest + [] == rest;
    StringIs(b, begin, rest);
  }

  /** The name creation stores: what follows the last slash, or, without any slash, all but the first character. */
  method FilenameFromPath(path: seq<byte>) returns (name: seq<byte>)
    requires path != []
    ensures name == LastName(path)
  {
    var lastSlash := 0;
    for i := 0 to |path|
      invariant lastSlash == LastSlash(path, i) < |path|
    {
      if path[i] == SLASH {
        lastSlash := i;
      }
    }
    name := path[lastSlash + 1..];
  }

  function LastSlash(s: seq<byte>, n: nat): (r: nat)
    requires n <= |s|
    ensures r == 0 || r < n
  {
    if n == 0 then 0 else if s[n - 1] == SLASH then n - 1 else LastSlash(s, n - 1)
  }

  function LastName(path: seq<byte>): seq<byte>
    requires path != []
  {
    path[LastSlash(path, |path|) + 1..]
  }

  /** The names joined back into an absolute path. */
  function Join(names: seq<seq<byte>>): seq<byte> {
    if names == [] then [] else [0x2F] + names[0] + Join(names[1..])
  }

  ghost predicate AreNames(names: seq<seq<byte>>) {
    forall n :: n in names ==> n != [] && 0x2F !in n
  }

  lemma JoinStarts(names: seq<seq<byte>>)
    ensures names != [] ==> Join(names) != [] && Join(names)[0] == SLASH
  {
  }

  lemma SegmentsStep(name: seq<byte>, rest: seq<byte>)
    requires name != [] && SLASH !in name && (rest == [] || rest[0] == SLASH)
    ensures Segments(name + rest) == [name] + if rest == [] then [] else Segments(rest[1..])
  {
    HeadOf(name, rest);
    if rest == [] {
      assert Tail(name + rest) == [];
    } else {
      assert Tail(name + rest) == rest[1..];
    }
  }

  /** Walking a joined path meets exactly the names it was joined from. */
  lemma {:induction false} SegmentsOfJoin(names: seq<seq<byte>>)
    requires AreNames(names) && names != []
    ensures Join(names) != [] && Segments(Join(names)[1..]) == names
    decreases |names|
  {
    hide Segments, Head, Tail;
    var name, rest := names[0], Join(names[1..]);
    assert name in names;
    assert Join(names)[1..] == name + rest;
    JoinStarts(names[1..]);
    SegmentsStep(name, rest);
    assert names == [name] + names[1..];
    if |names| > 1 {
      assert forall n :: n in names[1..] ==> n in names;
      SegmentsOfJoin(names[1..]);
    }
  }

  lemma {:induction false} LastSlashOfTail(a: seq<byte>, b: seq<byte>, n: nat)
    requires b != [] && b[0] == SLASH && n < |b|
    ensures LastSlash(a + b, |a| + n + 1) == |a| + LastSlash(b, n + 1)
    decreases n
  {
    assert (a + b)[|a| + n] == b[n];
    if b[n] != SLASH {
      LastSlashOfTail(a, b, n - 1);
    }
  }

  predicate IsAbsolute(path: seq<byte>) {
    path != [] && path[0] == SLASH
  }

  function Relative(path: seq<byte>): seq<byte> {
    if IsAbsolute(path) then path[1..] else path
  }

  /** A path without empty names: something follows the first slash, no two slashes meet, and none ends the path. */
  predicate NamesOnly(path: seq<byte>) {
    Relative(path) != [] && path[|path| - 1] != SLASH && NoDoubleSlash(path)
  }

  predicate NoDoubleSlash(s: seq<byte>) {
    forall i :: 0 <= i < |s| - 1 ==> !(s[i] == SLASH && s[i + 1] == SLASH)
  }

  /** What follows the last slash, or everything. */
  function AfterLastSlash(s: seq<byte>): seq<byte> {
    if SLASH in s then s[LastSlash(s, |s|) + 1..] else s
  }

  lemma {:induction false} LastSlashIsSlash(s: seq<byte>, n: nat)
    requires n <= |s| && SLASH in s[..n]
    ensures s[LastSlash(s, n)] == SLASH
  {
    if s[n - 1] != SLASH {
      assert s[..n - 1] + [s[n - 1]] == s[..n];
      LastSlashIsSlash(s, n - 1);
    }
  }

  /** The last slash behind a first one. */
  lemma {:induction false} LastSlashBehindFirst(t: seq<byte>, n: nat)
    requires n <= |t|
    ensures LastSlash([SLASH] + t, n + 1) == if SLASH in t[..n] then 1 + LastSlash(t, n) else 0
  {
    if n > 0 {
      assert ([SLASH] + t)[n] == t[n - 1];
      assert t[..n - 1] + [t[n - 1]] == t[..n];
      LastSlashBehindFirst(t, n - 1);
    }
  }

  lemma AfterLastSlashSkips(a: seq<byte>, t: seq<byte>, s: seq<byte>)
    requires s == a + ([SLASH] + t)
    ensures SLASH in s && AfterLastSlash(s) == AfterLastSlash(t)
  {
    var b := [SLASH] + t;
    assert s[|a|] == SLASH && t[..|t|] == t;
    LastSlashOfTail(a, b, |t|);
    LastSlashBehindFirst(t, |t|);
    hide LastSlash;
    assert |a| + |t| + 1 == |s|;
    var k := LastSlash(t, |t|);
    if SLASH in t {
      assert s[|a| + 1 + k + 1..] == t[k + 1..];
    } else {
      assert s[|a| + 1..] == t;
    }
  }

  lemma RestHasNoDoubleSlash(s: seq<byte>, k: nat)
    requires NoDoubleSlash(s) && k <= |s|
    ensures NoDoubleSlash(s[k..])
  {
    forall i | 0 <= i < |s[k..]| - 1 ensures !(s[k..][i] == SLASH && s[k..][i + 1] == SLASH) {
      assert !(s[k + i] == SLASH && s[k + i + 1] == SLASH);
    }
  }

  /** The walk ends with what follows the last slash. */
  lemma {:induction false} LastSegment(s: seq<byte>)
    requires !IsAbsolute(s) && NamesOnly(s)
    ensures Segments(s) != [] && Segments(s)[|Segments(s)| - 1] == AfterLastSlash(s)
    decreases |s|
  {
    hide AfterLastSlash, Segments;
    var name, t := Head(s), Tail(s);
    HeadIsPrefix(s);
    if |name| < |s| {
      SegmentsGoOn(s);
      hide Head;
      assert s == name + ([SLASH] + t);
      AfterLastSlashSkips(name, t, s);
      RestHasNoDoubleSlash(s, |name| + 1);
      TailGoesOn(s, |name|);
      LastSegment(t);
    } else {
      WholeIsLast(s);
    }
  }

  lemma SegmentsGoOn(s: seq<byte>)
    requires s != [] && s[0] != SLASH
    ensures Segments(s) == [Head(s)] + Segments(Tail(s))
  {
  }

  lemma TailGoesOn(s: seq<byte>, k: nat)
    requires NamesOnly(s) && k < |s| && s[k] == SLASH
    ensures s[k + 1..] != [] && !IsAbsolute(s[k + 1..]) && s[|s| - 1] == s[k + 1..][|s| - k - 2]
  {
    assert k < |s| - 1 ==> !(s[k] == SLASH && s[k + 1] == SLASH);
  }

  lemma WholeIsLast(s: seq<byte>)
    requires s != [] && SLASH !in s
    ensures Segments(s) == [s] && AfterLastSlash(s) == s
  {
    HeadOf(s, []);
    assert s + [] == s;
  }

  /**
   * The name creation stores is the name the walk ended with, on a path without empty names, absolute or relative, if
   * and only if there is a slash in it.
   */
  lemma LastNameIsLastSegmentExactlyWithASlash(path: seq<byte>)
    requires NamesOnly(path)
    ensures var segs := Segments(Relative(path));
      segs != [] && (LastName(path) == segs[|segs| - 1] <==> 0x2F in path)
  {
    hide Segments, LastSlash;
    var rel := Relative(path);
    if IsAbsolute(path) {
      assert path == [] + ([SLASH] + rel);
      AfterLastSlashSkips([], rel, path);
      RestHasNoDoubleSlash(path, 1);
      TailGoesOn(path, 0);
    }
    LastSegment(rel);
    if SLASH !in path {
      RelativeNameLosesItsHead(path);
    }
  }

  /** With an empty name the two part: creating "/a//b" walks to "a" and stores "b". */
  lemma EmptyNameStoresAnother()
    ensures var path := [0x2F, 0x61, 0x2F, 0x2F, 0x62];
      !NamesOnly(path) && Segments(Relative(path)) == [[0x61]] && LastName(path) == [0x62]
  {
    var path := [SLASH, 0x61, SLASH, SLASH, 0x62];
    var rel := path[1..];
    assert path[2] == SLASH && path[2 + 1] == SLASH;
    HeadOf([0x61], [SLASH, SLASH, 0x62]);
    assert rel == [0x61] + [SLASH, SLASH, 0x62];
    assert Head(Tail(rel)) == [];
    assert LastSlash(path, 4) == 3;
  }

  /** Without a slash the two never agree: creation drops the first character of a relative name. */
  lemma RelativeNameLosesItsHead(path: seq<byte>)
    requires path != [] && 0x2F !in path
    ensures Segments(path) == [path] && LastName(path) == path[1..] && LastName(path) != path
  {
    HeadOf(path, []);
    assert path + [] == path;
    NoSlashAtAll(path, |path|);
  }

  lemma {:induction false} NoSlashAtAll(s: seq<byte>, n: nat)
    requires SLASH !in s && n <= |s|
    ensures LastSlash(s, n) == 0
  {
    if n > 0 {
      assert s[n - 1] in s;
      NoSlashAtAll(s, n - 1);
    }
  }
}
