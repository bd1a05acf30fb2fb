/** The field layer of the auth protocol: little-endian numbers and length-prefixed byte strings,
    and why a list of fields can be read back in only one way. */
module AuthWire {
  import opened Options

  type byte = x: int | 0 <= x < 256

  function Pow256(n: nat): (r: nat)
    ensures r > 0
  {
    if n == 0 then 1 else 256 * Pow256(n - 1)
  }

  /** The low `n` bytes of `v`, least significant first; what does not fit is cut off. */
  function LE(v: nat, n: nat): (r: seq<byte>)
    ensures |r| == n
  {
    if n == 0 then [] else [v % 256] + LE(v / 256, n - 1)
  }

  function FromLE(s: seq<byte>): nat {
    if s == [] then 0 else s[0] + 256 * FromLE(s[1..])
  }

  lemma {:induction false} FromLEBounded(s: seq<byte>)
    ensures FromLE(s) < Pow256(|s|)
  {
    if s != [] {
      FromLEBounded(s[1..]);
    }
  }

  lemma LowByte(a: byte, b: nat)
    ensures (a + 256 * b) % 256 == a && (a + 256 * b) / 256 == b
  {
  }

  /** Writing what was read gives the bytes back. */
  lemma {:induction false} WriteRead(s: seq<byte>)
    ensures LE(FromLE(s), |s|) == s
  {
    if s != [] {
      WriteRead(s[1..]);
      LowByte(s[0], FromLE(s[1..]));
    }
  }

  /** A string on the wire: its length, low byte first, and its bytes. */
  function Str(s: seq<byte>): seq<byte> {
    [|s| % 256, |s| / 256 % 256] + s
  }

  /** A number on the wire, low byte first. */
  function U16(v: nat): seq<byte> {
    [v % 256, v / 256 % 256]
  }

  function U64(v: nat): seq<byte> {
    [v % 256, v / 0x100 % 256, v / 0x1_0000 % 256, v / 0x100_0000 % 256,
     v / 0x1_0000_0000 % 256, v / 0x100_0000_0000 % 256, v / 0x1_0000_0000_0000 % 256, v / 0x100_0000_0000_0000 % 256]
  }

  /** One byte more from the front. */
  lemma WriteFirst(v: nat, n: nat)
    requires n > 0
    ensures LE(v, n) == [v % 256] + LE(v / 256, n - 1)
  {
  }

  lemma TwoBytes(v: nat, n: nat)
    requires n >= 2
    ensures LE(v, n) == [v % 256, v / 0x100 % 256] + LE(v / 0x1_0000, n - 2)
  {
    WriteFirst(v, n);
    WriteFirst(v / 0x100, n - 1);
    assert v / 0x100 / 256 == v / 0x1_0000;
  }

  lemma FourBytes(v: nat, n: nat)
    requires n >= 4
    ensures LE(v, n) == [v % 256, v / 0x100 % 256, v / 0x1_0000 % 256, v / 0x100_0000 % 256] + LE(v / 0x1_0000_0000, n - 4)
  {
    var w := v / 0x1_0000;
    TwoBytes(v, n);
    TwoBytes(w, n - 2);
    assert w / 0x100 == v / 0x100_0000 && w / 0x1_0000 == v / 0x1_0000_0000;
  }

  lemma HighDigits(v: nat)
    ensures var w := v / 0x1_0000_0000;
            w / 0x100 == v / 0x100_0000_0000 && w / 0x1_0000 == v / 0x1_0000_0000_0000 && w / 0x100_0000 == v / 0x100_0000_0000_0000
  {
  }

  lemma EightBytes(v: nat)
    ensures LE(v, 8) == U64(v)
  {
    FourBytes(v, 8);
    FourBytes(v / 0x1_0000_0000, 4);
    HighDigits(v);
  }

  lemma WireNumbers(v: nat)
    ensures LE(v, 1) == [v % 256] && LE(v, 2) == U16(v) && LE(v, 8) == U64(v)
  {
    WriteFirst(v, 1);
    WriteFirst(v, 2);
    WriteFirst(v / 256, 1);
    EightBytes(v);
  }

  lemma WireString(s: seq<byte>)
    ensures Enc(Blob(s)) == Str(s)
  {
    WireNumbers(|s|);
  }

  /** Reading what was written gives the number back, if it fits. */
  lemma {:induction false} ReadWrite(v: nat, n: nat)
    requires v < Pow256(n)
    ensures FromLE(LE(v, n)) == v
  {
    if n > 0 {
      ReadWrite(v / 256, n - 1);
      assert LE(v, n)[1..] == LE(v / 256, n - 1);
    }
  }

  /** What is cut off only makes the number smaller. */
  lemma {:induction false} ReadAtMost(v: nat, n: nat)
    ensures FromLE(LE(v, n)) <= v
  {
    if n > 0 {
      ReadAtMost(v / 256, n - 1);
      assert LE(v, n)[1..] == LE(v / 256, n - 1);
    }
  }

  /** A number of fixed width, a string with a two-byte length, or one with a one-byte length. */
  datatype Field = Num(width: nat, v: nat) | Blob(bytes: seq<byte>) | Short(bytes: seq<byte>) {
    predicate Fits() {
      match this
      case Num(width, v) => v < Pow256(width)
      case Blob(b) => |b| < 0x10000
      case Short(b) => |b| < 0x100
    }

    function Kind(): Kind {
      match this
      case Num(width, _) => NumKind(width)
      case Blob(_) => BlobKind
      case Short(_) => ShortKind
    }
  }

  datatype Kind = NumKind(width: nat) | BlobKind | ShortKind

  function Enc(f: Field): seq<byte> {
    match f
    case Num(width, v) => LE(v, width)
    case Blob(b) => LE(|b|, 2) + b
    case Short(b) => LE(|b|, 1) + b
  }

  function EncAll(fs: seq<Field>): seq<byte> {
    if fs == [] then [] else Enc(fs[0]) + EncAll(fs[1..])
  }

  ghost predicate AllFit(fs: seq<Field>) {
    forall i :: 0 <= i < |fs| ==> fs[i].Fits()
  }

  function Kinds(fs: seq<Field>): (r: seq<Kind>)
    ensures |r| == |fs|
  {
    seq(|fs|, i requires 0 <= i < |fs| => fs[i].Kind())
  }

  ghost predicate Prefix<T>(p: seq<T>, s: seq<T>) {
    |p| <= |s| && s[..|p|] == p
  }

  lemma PrefixRest<T>(p: seq<T>, s: seq<T>)
    requires Prefix(p, s)
    ensures s == p + s[|p|..]
  {
  }

  lemma SplitEqual<T>(a: seq<T>, x: seq<T>, b: seq<T>, y: seq<T>)
    requires |a| == |b| && a + x == b + y
    ensures a == b && x == y
  {
    assert a == (a + x)[..|a|] == (b + y)[..|b|] == b;
    assert x == (a + x)[|a|..] == (b + y)[|b|..] == y;
  }

  lemma Assoc<T>(a: seq<T>, b: seq<T>, c: seq<T>)
    ensures a + b + c == a + (b + c)
  {
  }

  lemma SameNumber(v: nat, w: nat, n: nat)
    requires v < Pow256(n) && w < Pow256(n) && LE(v, n) == LE(w, n)
    ensures v == w
  {
    ReadWrite(v, n);
    ReadWrite(w, n);
  }

  lemma PrefixedUnambiguous(n: nat, a: seq<byte>, b: seq<byte>, x: seq<byte>, y: seq<byte>)
    requires |a| < Pow256(n) && |b| < Pow256(n) && LE(|a|, n) + a + x == LE(|b|, n) + b + y
    ensures a == b && x == y
  {
    Assoc(LE(|a|, n), a, x);
    Assoc(LE(|b|, n), b, y);
    SplitEqual(LE(|a|, n), a + x, LE(|b|, n), b + y);
    SameNumber(|a|, |b|, n);
    SplitEqual(a, x, b, y);
  }

  /** Fields of one kind at the head of equal strings are equal, and so is what follows. */
  lemma FieldUnambiguous(f: Field, g: Field, x: seq<byte>, y: seq<byte>)
    requires f.Kind() == g.Kind() && f.Fits() && g.Fits() && Enc(f) + x == Enc(g) + y
    ensures f == g && x == y
  {
    assert Pow256(1) == 0x100 && Pow256(2) == 0x10000;
    match f
    case Num(n, v) =>
      SplitEqual(LE(v, n), x, LE(g.v, n), y);
      SameNumber(v, g.v, n);
    case Blob(a) => PrefixedUnambiguous(2, a, g.bytes, x, y);
    case Short(a) => PrefixedUnambiguous(1, a, g.bytes, x, y);
  }

  /** Lists of fields of the same kinds at the head of equal strings are equal, and so is what follows. */
  lemma {:induction false} ListUnambiguous(fs: seq<Field>, gs: seq<Field>, x: seq<byte>, y: seq<byte>)
    requires Kinds(fs) == Kinds(gs) && AllFit(fs) && AllFit(gs) && EncAll(fs) + x == EncAll(gs) + y
    ensures fs == gs && x == y
  {
    if fs == [] {
      assert |gs| == |Kinds(gs)| == 0;
      assert [] + x == x && [] + y == y;
    } else {
      KindsSplit(fs);
      KindsSplit(gs);
      SplitEqual([fs[0].Kind()], Kinds(fs[1..]), [gs[0].Kind()], Kinds(gs[1..]));
      assert [fs[0].Kind()][0] == [gs[0].Kind()][0];
      Assoc(Enc(fs[0]), EncAll(fs[1..]), x);
      Assoc(Enc(gs[0]), EncAll(gs[1..]), y);
      FieldUnambiguous(fs[0], gs[0], EncAll(fs[1..]) + x, EncAll(gs[1..]) + y);
      ListUnambiguous(fs[1..], gs[1..], x, y);
    }
  }

  lemma KindsSplit(fs: seq<Field>)
    requires Kinds(fs) != []
    ensures fs != [] && Kinds(fs) == [fs[0].Kind()] + Kinds(fs[1..])
  {
  }

  lemma {:induction false} EncAllAppend(fs: seq<Field>, gs: seq<Field>)
    ensures EncAll(fs + gs) == EncAll(fs) + EncAll(gs)
  {
    if fs == [] {
      assert fs + gs == gs;
    } else {
      assert (fs + gs)[0] == fs[0] && (fs + gs)[1..] == fs[1..] + gs;
      EncAllAppend(fs[1..], gs);
      Assoc(Enc(fs[0]), EncAll(fs[1..]), EncAll(gs));
    }
  }

  lemma EncTwo(f: Field, g: Field)
    ensures EncAll([f, g]) == Enc(f) + Enc(g)
  {
    EncAllAppend([f], [g]);
    assert [f, g] == [f] + [g] && EncAll([f]) == Enc(f) && EncAll([g]) == Enc(g);
  }

  lemma EncThree(f: Field, g: Field, h: Field)
    ensures EncAll([f, g, h]) == Enc(f) + Enc(g) + Enc(h)
  {
    EncTwo(f, g);
    EncAllAppend([f, g], [h]);
    assert [f, g, h] == [f, g] + [h] && EncAll([h]) == Enc(h);
  }

  lemma EncFour(f: Field, g: Field, h: Field, i: Field)
    ensures EncAll([f, g, h, i]) == Enc(f) + Enc(g) + Enc(h) + Enc(i)
  {
    EncThree(f, g, h);
    EncAllAppend([f, g, h], [i]);
    assert [f, g, h, i] == [f, g, h] + [i] && EncAll([i]) == Enc(i);
  }

  // ---- Reading ----

  lemma PrefixParts<T>(a: seq<T>, b: seq<T>, s: seq<T>)
    ensures Prefix(a + b, s) <==> Prefix(a, s) && Prefix(b, s[|a|..])
  {
    if |a| + |b| <= |s| {
      assert s[..|a| + |b|] == s[..|a|] + s[|a|..][..|b|];
      if Prefix(a + b, s) {
        SplitEqual(a, b, s[..|a|], s[|a|..][..|b|]);
      }
    }
  }

  /** `data` starts with fitting fields of these kinds. */
  ghost predicate Reads(kinds: seq<Kind>, data: seq<byte>) {
    exists fs :: Kinds(fs) == kinds && AllFit(fs) && Prefix(EncAll(fs), data)
  }

  /** The fields `done` have been read from `data` and end at `offset`. */
  ghost predicate ReadSoFar(done: seq<Field>, data: seq<byte>, offset: nat) {
    AllFit(done) && |EncAll(done)| == offset && Prefix(EncAll(done), data)
  }

  method ReadNum(data: seq<byte>, offset: nat, width: nat) returns (r: Option<nat>)
    requires offset <= |data|
    ensures r.Some? <==> offset + width <= |data|
    ensures r.Some? ==> Num(width, r.value).Fits() && data[offset..offset + width] == Enc(Num(width, r.value))
  {
    if |data| < offset + width {
      return None;
    }
    FromLEBounded(data[offset..offset + width]);
    WriteRead(data[offset..offset + width]);
    r := Some(FromLE(data[offset..offset + width]));
  }

  method ReadBlob(data: seq<byte>, offset: nat) returns (r: Option<seq<byte>>)
    requires offset <= |data|
    ensures r.Some? ==> Blob(r.value).Fits() && Prefix(Enc(Blob(r.value)), data[offset..])
    ensures r.None? ==> forall b :: Blob(b).Fits() ==> !Prefix(Enc(Blob(b)), data[offset..])
  {
    var length := ReadNum(data, offset, 2);
    if length.None? {
      return None;
    }
    assert Pow256(2) == 0x10000;
    var n := length.value;
    if |data| < offset + 2 + n {
      forall b | Blob(b).Fits() && Prefix(Enc(Blob(b)), data[offset..])
        ensures false
      {
        assert LE(|b|, 2) == Enc(Blob(b))[..2] == data[offset..][..2] == data[offset..offset + 2];
        SameNumber(|b|, n, 2);
      }
      return None;
    }
    var b := data[offset + 2..offset + 2 + n];
    assert data[offset..][..2 + n] == data[offset..offset + 2] + b;
    r := Some(b);
  }

  /** One more field read. */
  lemma ReadOne(done: seq<Field>, data: seq<byte>, offset: nat, f: Field)
    requires ReadSoFar(done, data, offset) && f.Fits() && Prefix(Enc(f), data[offset..])
    ensures ReadSoFar(done + [f], data, offset + |Enc(f)|)
  {
    EncAllAppend(done, [f]);
    assert EncAll([f]) == Enc(f);
    PrefixParts(EncAll(done), Enc(f), data);
  }

  /** The encoding of a list around its `n`-th field. */
  lemma EncAllAt(fs: seq<Field>, n: nat)
    requires n < |fs|
    ensures EncAll(fs) == EncAll(fs[..n]) + (Enc(fs[n]) + EncAll(fs[n + 1..]))
  {
    assert fs == fs[..n] + fs[n..];
    EncAllAppend(fs[..n], fs[n..]);
    assert fs[n..][1..] == fs[n + 1..];
  }

  /** Whoever reads the list after `done` reads its next field at `offset`. */
  lemma NextField(done: seq<Field>, data: seq<byte>, offset: nat, fs: seq<Field>)
    requires ReadSoFar(done, data, offset) && |done| < |fs| && Kinds(done) == Kinds(fs)[..|done|]
    requires AllFit(fs) && Prefix(EncAll(fs), data)
    ensures Prefix(Enc(fs[|done|]), data[offset..])
  {
    var n := |done|;
    var head, f, tail, x := EncAll(fs[..n]), Enc(fs[n]), EncAll(fs[n + 1..]), data[|EncAll(fs)|..];
    EncAllAt(fs, n);
    Regroup(data, head, f, tail, x);
    PrefixRest(EncAll(done), data);
    assert Kinds(fs[..n]) == Kinds(fs)[..n];
    ListUnambiguous(fs[..n], done, f + (tail + x), data[offset..]);
  }

  lemma Regroup<T>(data: seq<T>, head: seq<T>, f: seq<T>, tail: seq<T>, x: seq<T>)
    requires |data| >= |head + (f + tail)| && data[..|head + (f + tail)|] == head + (f + tail)
    requires x == data[|head + (f + tail)|..]
    ensures data == head + (f + (tail + x))
  {
    Assoc(head, f + tail, x);
    Assoc(f, tail, x);
  }

  /** If the next field of a list cannot be read, the list cannot be. */
  lemma Stuck(done: seq<Field>, data: seq<byte>, offset: nat, kinds: seq<Kind>)
    requires ReadSoFar(done, data, offset) && |done| < |kinds| && Kinds(done) == kinds[..|done|]
    requires forall f: Field :: f.Kind() == kinds[|done|] && f.Fits() ==> !Prefix(Enc(f), data[offset..])
    ensures !Reads(kinds, data)
  {
    forall fs: seq<Field> | Kinds(fs) == kinds && AllFit(fs) && Prefix(EncAll(fs), data)
      ensures false
    {
      assert fs[|done|].Kind() == Kinds(fs)[|done|];
      NextField(done, data, offset, fs);
    }
  }

  /** What has been read in full is the only reading. */
  lemma ReadIsUnique(done: seq<Field>, data: seq<byte>, offset: nat, fs: seq<Field>)
    requires ReadSoFar(done, data, offset) && Kinds(fs) == Kinds(done) && AllFit(fs) && Prefix(EncAll(fs), data)
    ensures fs == done
  {
    PrefixRest(EncAll(fs), data);
    PrefixRest(EncAll(done), data);
    ListUnambiguous(fs, done, data[|EncAll(fs)|..], data[offset..]);
  }
}
