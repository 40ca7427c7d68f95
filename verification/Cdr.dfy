/** The CDR encoding of `xrce/src/cdr.c` as functions: what bytes a list of fields takes up, and
    how a typed value is read back.  Alignment is that of section 9.3 of CORBA 3.3 Part 2, counted
    from `align_base`. */
module Cdr {
  import opened Options
  import opened Bytes

  // ------------------------------------------------------------- little endian

  /** The `n` low bytes of `v`, least significant first. */
  function Little(v: nat, n: nat): (r: seq<byte>)
    ensures |r| == n
    decreases n
  {
    if n == 0 then [] else [Low8(v)] + Little(v / 256, n - 1)
  }

  function FromLittle(b: seq<byte>): nat {
    if b == [] then 0 else b[0] + 256 * FromLittle(b[1..])
  }

  function Capacity(n: nat): (r: nat)
    ensures r > 0
  {
    if n == 0 then 1 else 256 * Capacity(n - 1)
  }

  lemma {:induction false} LittleRoundTrip(v: nat, n: nat)
    requires v < Capacity(n)
    ensures FromLittle(Little(v, n)) == v
    decreases n
  {
    if n > 0 {
      LittleRoundTrip(v / 256, n - 1);
    }
  }

  lemma {:induction false} FromLittleBound(b: seq<byte>)
    ensures FromLittle(b) < Capacity(|b|)
    decreases |b|
  {
    if b != [] {
      FromLittleBound(b[1..]);
    }
  }

  // ------------------------------------------------------------ wire primitives

  datatype Width = W1 | W2 | W4 | W8

  function Size(w: Width): nat {
    match w
    case W1 => 1
    case W2 => 2
    case W4 => 4
    case W8 => 8
  }

  /** The padding in front of a primitive `off` bytes after the alignment base. */
  function Padding(off: nat, w: Width): nat {
    match w
    case W1 => 0
    case W2 => off % 2
    case W4 => if off % 4 == 0 then 0 else 4 - off % 4
    case W8 => if off % 8 == 0 then 0 else 8 - off % 8
  }

  /** What the writer puts out in one go: an aligned number, or bytes as they are. */
  datatype Prim = Word(width: Width, value: nat) | Raw(data: seq<byte>)

  function Laid(off: nat, p: Prim): seq<byte> {
    match p
    case Word(w, v) => Zeros(Padding(off, w)) + Little(v, Size(w))
    case Raw(data) => data
  }

  type Layout = (nat, Prim) -> seq<byte>

  /** `lay` is the layout rule of CDR. */
  ghost predicate IsCdr(lay: Layout) {
    forall off, p {:trigger Laid(off, p)} :: lay(off, p) == Laid(off, p)
  }

  lemma LaidIsCdr()
    ensures IsCdr(Laid)
  {
  }

  /** The bytes of a list of primitives from the alignment base on, each laid out at its offset. */
  function Laying(lay: Layout, ps: seq<Prim>): seq<byte>
    decreases |ps|
  {
    if ps == [] then []
    else
      var before := Laying(lay, ps[..|ps| - 1]);
      before + lay(|before|, ps[|ps| - 1])
  }

  /** Where primitive `i` begins, padding included. */
  function Pos(lay: Layout, ps: seq<Prim>, i: nat): nat
    requires i <= |ps|
  {
    |Laying(lay, ps[..i])|
  }

  lemma LayingSnoc(lay: Layout, ps: seq<Prim>, p: Prim)
    ensures Laying(lay, ps + [p]) == Laying(lay, ps) + lay(|Laying(lay, ps)|, p)
  {
    assert (ps + [p])[..|ps|] == ps;
  }

  lemma {:induction false} LayingPrefix(lay: Layout, ps: seq<Prim>, more: seq<Prim>)
    ensures |Laying(lay, ps)| <= |Laying(lay, ps + more)|
    ensures Laying(lay, ps + more)[..|Laying(lay, ps)|] == Laying(lay, ps)
    decreases |more|
  {
    if more == [] {
      assert ps + more == ps;
    } else {
      var m := |more| - 1;
      LayingPrefix(lay, ps, more[..m]);
      assert ps + more == ps + more[..m] + [more[m]];
      LayingSnoc(lay, ps + more[..m], more[m]);
    }
  }

  /** The bytes from `base` on begin with the layout of `ps`. */
  ghost predicate Spells(lay: Layout, buf: seq<byte>, base: nat, ps: seq<Prim>) {
    base + |Laying(lay, ps)| <= |buf| && buf[base..base + |Laying(lay, ps)|] == Laying(lay, ps)
  }

  lemma Slices<T>(buf: seq<T>, base: nat, all: seq<T>, front: seq<T>, piece: seq<T>)
    requires base + |all| <= |buf| && buf[base..base + |all|] == all
    requires |front + piece| <= |all| && all[..|front + piece|] == front + piece
    ensures buf[base + |front|..base + |front + piece|] == piece
  {
    var b := |front + piece|;
    assert buf[base..base + b] == all[..b];
    assert buf[base + |front|..base + b] == buf[base..base + b][|front|..];
  }

  lemma PrimAt(lay: Layout, buf: seq<byte>, base: nat, ps: seq<Prim>, i: nat)
    requires Spells(lay, buf, base, ps) && i < |ps|
    ensures var from, to := base + Pos(lay, ps, i), base + Pos(lay, ps, i + 1);
            from <= to <= |buf| && buf[from..to] == lay(Pos(lay, ps, i), ps[i])
  {
    LayingStep(lay, ps, i);
    LayingUpTo(lay, ps, i + 1);
    Slices(buf, base, Laying(lay, ps), Laying(lay, ps[..i]), lay(Pos(lay, ps, i), ps[i]));
  }

  lemma LayingStep(lay: Layout, ps: seq<Prim>, i: nat)
    requires i < |ps|
    ensures Laying(lay, ps[..i + 1]) == Laying(lay, ps[..i]) + lay(Pos(lay, ps, i), ps[i])
  {
    assert ps[..i + 1] == ps[..i] + [ps[i]];
    LayingSnoc(lay, ps[..i], ps[i]);
  }

  lemma LayingUpTo(lay: Layout, ps: seq<Prim>, i: nat)
    requires i <= |ps|
    ensures Pos(lay, ps, i) <= |Laying(lay, ps)| && Laying(lay, ps)[..Pos(lay, ps, i)] == Laying(lay, ps[..i])
  {
    assert ps[..i] + ps[i..] == ps;
    LayingPrefix(lay, ps[..i], ps[i..]);
  }

  // ------------------------------------------------------------------- reading

  /** Align, then take the bytes of one number. */
  function GetWord(buf: seq<byte>, pos: nat, base: nat, w: Width): (r: Option<(nat, nat)>)
    requires base <= pos <= |buf|
    ensures r.Some? ==> pos <= r.value.1 <= |buf|
  {
    var p := pos + Padding(pos - base, w);
    if p + Size(w) > |buf| then None else Some((FromLittle(buf[p..p + Size(w)]), p + Size(w)))
  }

  function GetRaw(buf: seq<byte>, pos: nat, n: nat): (r: Option<(seq<byte>, nat)>)
    requires pos <= |buf|
    ensures r.Some? ==> pos <= r.value.1 <= |buf|
  {
    if pos + n > |buf| then None else Some((buf[pos..pos + n], pos + n))
  }

  lemma AfterPad(buf: seq<byte>, from: nat, to: nat, pad: nat, data: seq<byte>)
    requires from <= to <= |buf| && buf[from..to] == Zeros(pad) + data
    ensures to == from + pad + |data| && buf[from + pad..to] == data
  {
    assert buf[from + pad..to] == buf[from..to][pad..];
  }

  lemma WordFrom(buf: seq<byte>, from: nat, to: nat, base: nat, w: Width, v: nat)
    requires base <= from <= to <= |buf| && buf[from..to] == Laid(from - base, Word(w, v)) && v < Capacity(Size(w))
    ensures GetWord(buf, from, base, w) == Some((v, to))
  {
    AfterPad(buf, from, to, Padding(from - base, w), Little(v, Size(w)));
    LittleRoundTrip(v, Size(w));
  }

  lemma RawFrom(buf: seq<byte>, from: nat, to: nat, data: seq<byte>)
    requires from <= to <= |buf| && buf[from..to] == data
    ensures GetRaw(buf, from, |data|) == Some((data, to))
  {
  }

  /** Numbers that fit a width. */
  function Limit(w: Width): nat {
    match w
    case W1 => 0x100
    case W2 => 0x1_0000
    case W4 => 0x1_0000_0000
    case W8 => 0x1_0000_0000_0000_0000
  }

  lemma LimitIsCapacity(w: Width)
    ensures Limit(w) == Capacity(Size(w))
  {
    assert Capacity(1) == 0x100;
    assert Capacity(2) == 0x1_0000;
    assert Capacity(3) == 0x100_0000;
    assert Capacity(4) == 0x1_0000_0000;
    assert Capacity(5) == 0x100_0000_0000;
    assert Capacity(6) == 0x1_0000_0000_0000;
    assert Capacity(7) == 0x100_0000_0000_0000;
    assert Capacity(8) == 0x1_0000_0000_0000_0000;
  }

  // ----------------------------------------------------------------- alignment

  /** `n` is a multiple of the width. */
  predicate Multiple(n: nat, w: Width) {
    match w
    case W1 => true
    case W2 => n % 2 == 0
    case W4 => n % 4 == 0
    case W8 => n % 8 == 0
  }

  /** Padding leads to the next multiple of the width, and no further. */
  lemma PaddingAligns(off: nat, w: Width)
    ensures Multiple(off + Padding(off, w), w) && Padding(off, w) < Size(w)
    ensures Multiple(off, w) ==> Padding(off, w) == 0
  {
    match w
    case W1 =>
    case W2 => NextMultiple(off, 2);
    case W4 => NextMultiple(off, 4);
    case W8 => NextMultiple(off, 8);
  }

  lemma NextMultiple(off: nat, n: nat)
    requires n == 2 || n == 4 || n == 8
    ensures off % n != 0 ==> (off + (n - off % n)) % n == 0
  {
  }

  /** Where the bytes of number `i` of a field list begin. */
  function ValueAt(lay: Layout, ps: seq<Prim>, i: nat): int
    requires i < |ps| && ps[i].Word?
  {
    Pos(lay, ps, i + 1) - Size(ps[i].width)
  }

  /** In every field list each number stands at a multiple of its size from the alignment base, the
      first one behind the field before it, with zeros in between, least significant byte first. */
  lemma NumbersAligned(lay: Layout, ps: seq<Prim>, i: nat)
    requires IsCdr(lay) && i < |ps| && ps[i].Word?
    ensures var w, start, all := ps[i].width, ValueAt(lay, ps, i), Laying(lay, ps);
            && Pos(lay, ps, i) <= start < Pos(lay, ps, i) + Size(w) && Multiple(start, w)
            && Pos(lay, ps, i + 1) <= |all|
            && (forall k :: Pos(lay, ps, i) <= k < start ==> all[k] == 0)
            && all[start..start + Size(w)] == Little(ps[i].value, Size(w))
  {
    var from, to, all := Pos(lay, ps, i), Pos(lay, ps, i + 1), Laying(lay, ps);
    LayingStep(lay, ps, i);
    LayingUpTo(lay, ps, i);
    LayingUpTo(lay, ps, i + 1);
    CdrLays(lay, from, ps[i]);
    NumberPlaced(all, from, to, ps[i].width, ps[i].value);
  }

  lemma CdrLays(lay: Layout, off: nat, p: Prim)
    requires IsCdr(lay)
    ensures lay(off, p) == Laid(off, p)
  {
  }

  lemma NumberPlaced(all: seq<byte>, from: nat, to: nat, w: Width, v: nat)
    requires from <= to <= |all| && all[..to] == all[..from] + Laid(from, Word(w, v))
    ensures var start := to - Size(w);
            && from <= start < from + Size(w) && Multiple(start, w)
            && (forall k :: from <= k < start ==> all[k] == 0)
            && all[start..to] == Little(v, Size(w))
  {
    PaddingAligns(from, w);
    PaddedValue(all, from, Padding(from, w), Little(v, Size(w)));
  }

  lemma PaddedValue(all: seq<byte>, from: nat, pad: nat, value: seq<byte>)
    requires from + pad + |value| <= |all|
    requires all[..from + pad + |value|] == all[..from] + (Zeros(pad) + value)
    ensures forall k :: from <= k < from + pad ==> all[k] == 0
    ensures all[from + pad..from + pad + |value|] == value
  {
    var front := all[..from + pad + |value|];
    forall k | from <= k < from + pad
      ensures all[k] == 0
    {
      assert all[k] == front[k] == Zeros(pad)[k - from];
    }
    assert all[from + pad..from + pad + |value|] == front[from + pad..];
  }

  /** The numbers two, four and eight bytes stand for. */
  lemma LittleValues(a: byte, b: byte, c: byte, d: byte)
    ensures FromLittle([a, b]) == a + 0x100 * (b as int)
    ensures FromLittle([a, b, c, d]) == a + 0x100 * (b as int) + 0x1_0000 * (c as int) + 0x100_0000 * (d as int)
  {
    assert [a, b][1..] == [b] && [b][1..] == [];
    assert [a, b, c, d][1..] == [b, c, d] && [b, c, d][1..] == [c, d] && [c, d][1..] == [d] && [d][1..] == [];
    assert FromLittle([d]) == d;
    assert FromLittle([c, d]) == c + 256 * (d as int);
    assert FromLittle([b, c, d]) == b + 256 * FromLittle([c, d]);
  }

  /** Low bytes come first. */
  lemma {:induction false} LittleConcat(a: seq<byte>, b: seq<byte>)
    ensures FromLittle(a + b) == FromLittle(a) + Capacity(|a|) * FromLittle(b)
    decreases |a|
  {
    if a == [] {
      assert a + b == b;
    } else {
      LittleConcat(a[1..], b);
      assert (a + b)[1..] == a[1..] + b;
      Distribute(a[0], FromLittle(a[1..]), Capacity(|a| - 1), FromLittle(b));
    }
  }

  lemma Distribute(x: nat, y: nat, c: nat, z: nat)
    ensures x + 256 * (y + c * z) == x + 256 * y + (256 * c) * z
  {
  }
}
