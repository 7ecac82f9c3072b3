/** 8.3 names: section 6.1 of the Microsoft FAT Specification, as make_8point3_name builds them. */
module Names {
  import opened Bytes

  const DOT: byte := 0x2E
  const SPACE: byte := 0x20

  function ToUpper(c: byte): byte {
    if 0x61 <= c <= 0x7A then c - 0x20 else c
  }

  predicate Alphanumeric(c: byte) {
    0x61 <= c <= 0x7A || 0x41 <= c <= 0x5A || 0x30 <= c <= 0x39
  }

  predicate StartsExtension(f: seq<byte>, i: nat)
    requires i + 1 < |f|
  {
    f[i] == DOT && Alphanumeric(f[i + 1])
  }

  /** The last dot with a letter or digit behind it, among the first `n` characters; the length if there is none. */
  function LastDot(f: seq<byte>, n: nat): (r: nat)
    requires n < |f|
    ensures r < n || r == |f|
  {
    if n == 0 then |f| else if StartsExtension(f, n - 1) then n - 1 else LastDot(f, n - 1)
  }

  lemma {:induction false} DotIsAtLastDot(f: seq<byte>, n: nat)
    requires n < |f|
    ensures LastDot(f, n) < |f| ==> f[LastDot(f, n)] == DOT
  {
    if n > 0 && !StartsExtension(f, n - 1) {
      DotIsAtLastDot(f, n - 1);
    }
  }

  /** The 11 bytes a file name is stored and looked up under. */
  function Name83(f: seq<byte>): (r: seq<byte>)
    requires |f| > 0
    ensures |r| == 11
  {
    var dot := LastDot(f, |f| - 1);
    seq(11, i requires 0 <= i < 11 => StoredByte(f, dot, i))
  }

  /** Byte i of the stored name: eight of the name before the dot, three of what follows it, and spaces. */
  function StoredByte(f: seq<byte>, dot: nat, i: nat): byte
    requires dot <= |f|
  {
    if i < 8 then if i < dot then ToUpper(f[i]) else SPACE
    else if dot + i - 7 < |f| then ToUpper(f[dot + i - 7]) else SPACE
  }

  method Make8Point3Name(f: seq<byte>, buffer: array<byte>)
    requires |f| > 0 && buffer.Length == 11
    modifies buffer
    ensures buffer[..] == Name83(f)
  {
    hide ToUpper, Alphanumeric;
    for i := 0 to 11
      invariant forall j :: 0 <= j < i ==> buffer[j] == SPACE
    {
      buffer[i] := SPACE;
    }
    var lastDot := |f|;
    for i := 0 to |f| - 1
      invariant lastDot == LastDot(f, i)
    {
      if f[i] == DOT && Alphanumeric(f[i + 1]) {
        lastDot := i;
      }
    }
    var counter := 0;
    while counter < lastDot && counter < |f|
      invariant counter <= lastDot
      invariant forall j :: 0 <= j < 11 ==> buffer[j] == if j < 8 && j < counter then ToUpper(f[j]) else SPACE
    {
      if counter < 8 {
        buffer[counter] := ToUpper(f[counter]);
      }
      counter := counter + 1;
    }
    counter := counter + 1;
    var after := 0;
    while counter < |f| && after < 3
      invariant after <= 3 && counter == lastDot + 1 + after && (after > 0 ==> counter <= |f|)
      invariant forall j :: 0 <= j < 8 ==> buffer[j] == if j < lastDot then ToUpper(f[j]) else SPACE
      invariant forall j :: 8 <= j < 11 ==> buffer[j] == if j < 8 + after then ToUpper(f[lastDot + j - 7]) else SPACE
    {
      buffer[8 + after] := ToUpper(f[counter]);
      after := after + 1;
      counter := counter + 1;
    }
  }

  function Upper(f: seq<byte>): (r: seq<byte>)
    ensures |r| == |f|
  {
    seq(|f|, i requires 0 <= i < |f| => ToUpper(f[i]))
  }

  /** Letters and digits only. */
  predicate AllAlphanumeric(f: seq<byte>) {
    forall c :: c in f ==> 0x30 <= c <= 0x39 || 0x41 <= c <= 0x5A || 0x61 <= c <= 0x7A
  }

  /** Two bytes that are the same, or one letter in its two cases. */
  predicate CaseTwins(b: byte, c: byte) {
    || b == c
    || (b as int == c as int + 0x20 && 0x61 <= b <= 0x7A)
    || (c as int == b as int + 0x20 && 0x61 <= c <= 0x7A)
  }

  predicate SameUpToCase(f: seq<byte>, g: seq<byte>) {
    |f| == |g| && forall i :: 0 <= i < |f| ==> CaseTwins(f[i], g[i])
  }

  /** `b` is `c`, except that it is no lower-case letter. */
  predicate StoredAs(b: byte, c: byte) {
    CaseTwins(b, c) && !(0x61 <= b <= 0x7A)
  }

  lemma UpperIsStored(c: byte)
    ensures StoredAs(ToUpper(c), c)
  {
  }

  lemma UpperMeansCase(f: seq<byte>, g: seq<byte>)
    ensures Upper(f) == Upper(g) <==> SameUpToCase(f, g)
    ensures SameUpToCase(Upper(f), f)
    ensures forall i :: 0 <= i < |f| ==> !(0x61 <= Upper(f)[i] <= 0x7A)
  {
    assert forall i :: 0 <= i < |f| ==> Upper(f)[i] == ToUpper(f[i]);
    assert forall i :: 0 <= i < |g| ==> Upper(g)[i] == ToUpper(g[i]);
  }

  /** Names that fit: up to eight letters or digits, and perhaps a dot and up to three more. */
  ghost predicate Fits83(base: seq<byte>, ext: seq<byte>) {
    0 < |base| <= 8 && |ext| <= 3 && AllAlphanumeric(base) && AllAlphanumeric(ext)
  }

  function FullName(base: seq<byte>, ext: seq<byte>): seq<byte> {
    if ext == [] then base else base + [DOT] + ext
  }

  /** The part of a padded field before its first space. */
  function Trim(s: seq<byte>): (r: seq<byte>) {
    if s == [] || s[0] == SPACE then [] else [s[0]] + Trim(s[1..])
  }

  function Decode83(n: seq<byte>): seq<byte>
    requires |n| == 11
  {
    FullName(Trim(n[..8]), Trim(n[8..]))
  }

  lemma {:induction false} TrimPadded(s: seq<byte>, n: nat)
    requires SPACE !in s
    ensures Trim(s + seq(n, _ => SPACE)) == s
  {
    var padded := s + seq(n, _ => SPACE);
    if s == [] {
      assert n > 0 ==> padded[0] == SPACE;
    } else {
      assert s[0] in s && padded[0] == s[0] && s == [s[0]] + s[1..];
      assert padded[1..] == s[1..] + seq(n, _ => SPACE);
      TrimPadded(s[1..], n);
    }
  }

  lemma {:induction false} NoDotNoExtension(f: seq<byte>, n: nat)
    requires n < |f| && 0x2E !in f
    ensures LastDot(f, n) == |f|
  {
    if n > 0 {
      assert f[n - 1] in f;
      NoDotNoExtension(f, n - 1);
    }
  }

  lemma {:induction false} DotBeforeExtension(base: seq<byte>, ext: seq<byte>, n: nat)
    requires AllAlphanumeric(ext) && ext != [] && |base| < n < |base| + 1 + |ext|
    ensures LastDot(base + [DOT] + ext, n) == |base|
    decreases n
  {
    var f := base + [DOT] + ext;
    if n - 1 == |base| {
      assert f[n] == ext[0] && ext[0] in ext;
    } else {
      assert f[n - 1] == ext[n - 1 - |base| - 1] && f[n - 1] in ext;
      DotBeforeExtension(base, ext, n - 1);
    }
  }

  lemma UpperIsAlphanumeric(f: seq<byte>)
    requires AllAlphanumeric(f)
    ensures AllAlphanumeric(Upper(f))
  {
    forall i | 0 <= i < |f| ensures AllAlphanumeric([Upper(f)[i]]) {
      assert f[i] in f;
    }
    assert forall i :: 0 <= i < |f| ==> Upper(f)[i] in [Upper(f)[i]];
  }

  lemma LastDotOfFullName(base: seq<byte>, ext: seq<byte>)
    requires Fits83(base, ext)
    ensures var f := FullName(base, ext); LastDot(f, |f| - 1) == |base|
  {
    var f := FullName(base, ext);
    if ext == [] {
      assert DOT !in f;
      NoDotNoExtension(f, |f| - 1);
    } else {
      DotBeforeExtension(base, ext, |f| - 1);
    }
  }

  /** The two fields of the stored name. */
  lemma Name83Fields(base: seq<byte>, ext: seq<byte>)
    requires Fits83(base, ext)
    ensures var n := Name83(FullName(base, ext));
      && n[..8] == Upper(base) + seq(8 - |base|, _ => SPACE)
      && n[8..] == Upper(ext) + seq(3 - |ext|, _ => SPACE)
  {
    hide AllAlphanumeric, LastDot;
    var n := Name83(FullName(base, ext));
    LastDotOfFullName(base, ext);
    BaseField(base, ext);
    ExtensionField(base, ext);
    hide StoredByte, FullName;
    assert n[..8] == Upper(base) + seq(8 - |base|, _ => SPACE);
    assert n[8..] == Upper(ext) + seq(3 - |ext|, _ => SPACE);
  }

  lemma BaseField(base: seq<byte>, ext: seq<byte>)
    requires |base| <= 8
    ensures forall i :: 0 <= i < 8 ==>
      StoredByte(FullName(base, ext), |base|, i) == (Upper(base) + seq(8 - |base|, _ => SPACE))[i]
  {
    assert forall i :: 0 <= i < |base| ==> FullName(base, ext)[i] == base[i];
  }

  lemma ExtensionField(base: seq<byte>, ext: seq<byte>)
    requires |ext| <= 3
    ensures forall i :: 8 <= i < 11 ==>
      StoredByte(FullName(base, ext), |base|, i) == (Upper(ext) + seq(3 - |ext|, _ => SPACE))[i - 8]
  {
    var f := FullName(base, ext);
    assert ext != [] ==> |f| == |base| + 1 + |ext|;
    assert forall k :: 0 <= k < |ext| ==> f[|base| + 1 + k] == ext[k];
  }

  /** No stored name has a lower-case letter. */
  lemma StoredNamesAreUpperCase(f: seq<byte>)
    requires f != []
    ensures forall i :: 0 <= i < 11 ==> !(0x61 <= Name83(f)[i] <= 0x7A)
  {
    hide LastDot;
  }

  /** Behind the last dot the extension begins, whatever comes before; both parts are cut where their fields end. */
  lemma StoredParts(base: seq<byte>, ext: seq<byte>)
    requires ext != [] && AllAlphanumeric(ext)
    ensures var n := Name83(base + [0x2E] + ext);
      && (forall i :: 0 <= i < 8 ==> if i < |base| then StoredAs(n[i], base[i]) else n[i] == 0x20)
      && (forall i :: 0 <= i < 3 ==> if i < |ext| then StoredAs(n[8 + i], ext[i]) else n[8 + i] == 0x20)
  {
    var f := base + [0x2E] + ext;
    DotBeforeExtension(base, ext, |f| - 1);
    hide LastDot, ToUpper;
    forall i | 0 <= i < 8 ensures if i < |base| then StoredAs(Name83(f)[i], base[i]) else Name83(f)[i] == 0x20 {
      if i < |base| {
        UpperIsStored(base[i]);
      }
    }
    forall i | 0 <= i < 3 ensures if i < |ext| then StoredAs(Name83(f)[8 + i], ext[i]) else Name83(f)[8 + i] == 0x20 {
      if i < |ext| {
        assert f[|base| + 1 + i] == ext[i];
        UpperIsStored(ext[i]);
      }
    }
  }

  /** A name without a dot has no extension. */
  lemma StoredWhole(base: seq<byte>)
    requires base != [] && 0x2E !in base
    ensures var n := Name83(base);
      && (forall i :: 0 <= i < 8 ==> if i < |base| then StoredAs(n[i], base[i]) else n[i] == 0x20)
      && n[8..] == [0x20, 0x20, 0x20]
  {
    NoDotNoExtension(base, |base| - 1);
    hide LastDot, ToUpper;
    forall i | 0 <= i < 8 ensures if i < |base| then StoredAs(Name83(base)[i], base[i]) else Name83(base)[i] == 0x20 {
      if i < |base| {
        UpperIsStored(base[i]);
      }
    }
  }

  /** Storing a fitting name loses nothing but the case of its letters. */
  lemma NameRoundTrip(base: seq<byte>, ext: seq<byte>)
    requires Fits83(base, ext)
    ensures var n := Decode83(Name83(FullName(base, ext)));
      SameUpToCase(n, FullName(base, ext)) && forall i :: 0 <= i < |n| ==> !(0x61 <= n[i] <= 0x7A)
  {
    DecodedIsUpper(base, ext);
    hide Name83, Decode83, Upper;
    UpperMeansCase(FullName(base, ext), FullName(base, ext));
  }

  lemma DecodedIsUpper(base: seq<byte>, ext: seq<byte>)
    requires Fits83(base, ext)
    ensures Decode83(Name83(FullName(base, ext))) == Upper(FullName(base, ext))
  {
    Name83Fields(base, ext);
    UpperIsAlphanumeric(base);
    UpperIsAlphanumeric(ext);
    assert SPACE !in Upper(base) && SPACE !in Upper(ext);
    TrimPadded(Upper(base), 8 - |base|);
    TrimPadded(Upper(ext), 3 - |ext|);
    hide Name83, Trim, AllAlphanumeric;
    UpperOfFullName(base, ext);
  }

  lemma UpperOfFullName(base: seq<byte>, ext: seq<byte>)
    ensures Upper(FullName(base, ext)) == FullName(Upper(base), Upper(ext))
  {
    assert Upper(base + [DOT] + ext) == Upper(base) + [DOT] + Upper(ext);
  }

  /** Two fitting names share a slot exactly when they differ only in case. */
  lemma NamesCollideExactlyUpToCase(base: seq<byte>, ext: seq<byte>, base': seq<byte>, ext': seq<byte>)
    requires Fits83(base, ext) && Fits83(base', ext')
    ensures Name83(FullName(base, ext)) == Name83(FullName(base', ext'))
       <==> SameUpToCase(FullName(base, ext), FullName(base', ext'))
  {
    DecodedIsUpper(base, ext);
    DecodedIsUpper(base', ext');
    hide Name83, Decode83, Upper, SameUpToCase;
    UpperMeansCase(FullName(base, ext), FullName(base', ext'));
    if SameUpToCase(FullName(base, ext), FullName(base', ext')) {
      Name83IgnoresCase(FullName(base, ext), FullName(base', ext'));
    }
  }

  lemma {:induction false} LastDotIgnoresCase(f: seq<byte>, g: seq<byte>, n: nat)
    requires n < |f| && Upper(f) == Upper(g)
    ensures LastDot(f, n) == LastDot(g, n)
  {
    assert forall i :: 0 <= i < |f| ==> ToUpper(f[i]) == Upper(f)[i] == Upper(g)[i] == ToUpper(g[i]);
    if n > 0 {
      LastDotIgnoresCase(f, g, n - 1);
    }
  }

  /** Any two names, fitting or not, that differ only in case are the same file. */
  lemma Name83IgnoresCase(f: seq<byte>, g: seq<byte>)
    requires |f| > 0 && SameUpToCase(f, g)
    ensures Name83(f) == Name83(g)
  {
    UpperMeansCase(f, g);
    LastDotIgnoresCase(f, g, |f| - 1);
    hide LastDot;
    assert forall i :: 0 <= i < |f| ==> ToUpper(f[i]) == Upper(f)[i] == Upper(g)[i] == ToUpper(g[i]);
  }

  /** The names of a directory's links to itself and to its parent. */
  function DotName(): (r: seq<byte>)
    ensures |r| == 11
  {
    [DOT] + seq(10, _ => SPACE)
  }

  function DotDotName(): (r: seq<byte>)
    ensures |r| == 11
  {
    [DOT, DOT] + seq(9, _ => SPACE)
  }

  lemma DotNames()
    ensures Name83([0x2E]) == DotName() == [0x2E] + seq(10, _ => 0x20)
    ensures Name83([0x2E, 0x2E]) == DotDotName() == [0x2E, 0x2E] + seq(9, _ => 0x20)
  {
    assert LastDot([DOT, DOT], 1) == 2;
  }
}
