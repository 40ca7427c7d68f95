/** Typed values over the CDR primitives: the members of the message structs, how the encoders of
    `xrce/src/msgs.c` put them out and how the decoders take them in. */
module CdrValues {
  import opened Options
  import opened Bytes
  import opened Cdr

  /** The types of struct members: `Text` and `List` carry the capacity of the member's array. */
  datatype Type =
    | Flag | Octet | Short | Int | UInt | Double | Blob(size: nat) | Text(cap: nat)
    | Both(first: Type, second: Type)
    | List(max: nat, elem: Type)

  datatype Value =
    | VFlag(on: bool) | VOctet(octet: byte) | VShort(short: int) | VInt(number: int) | VUInt(natural: nat)
    | VDouble(bits: nat) | VBlob(data: seq<byte>) | VText(text: seq<byte>)
    | VBoth(first: Value, second: Value)
    | VList(items: seq<Value>)

  /** `v` fits a member of type `t`: strings are terminated C strings, counts within the array. */
  predicate Fits(t: Type, v: Value)
    decreases v
  {
    match v
    case VFlag(_) => t.Flag?
    case VOctet(_) => t.Octet?
    case VShort(x) => t.Short? && -0x8000 <= x < 0x8000
    case VInt(x) => t.Int? && -0x8000_0000 <= x < 0x8000_0000
    case VUInt(x) => t.UInt? && x < Limit(W4)
    case VDouble(x) => t.Double? && x < Limit(W8)
    case VBlob(d) => t.Blob? && |d| == t.size
    case VText(s) => t.Text? && 0 !in s && |s| + 1 <= t.cap && |s| + 1 < Limit(W4)
    case VBoth(x, y) => t.Both? && Fits(t.first, x) && Fits(t.second, y)
    case VList(xs) => t.List? && |xs| <= t.max && |xs| < Limit(W4) && forall i :: 0 <= i < |xs| ==> Fits(t.elem, xs[i])
  }

  lemma FitsBoth(a: Type, b: Type, x: Value, y: Value)
    requires Fits(a, x) && Fits(b, y)
    ensures Fits(Both(a, b), VBoth(x, y))
  {
  }

  // ------------------------------------------------------------------- writing

  /** What the writer is asked for, field by field; `%` is C's conversion to unsigned. */
  function Flat(v: Value): seq<Prim>
    decreases v
  {
    match v
    case VFlag(on) => [Word(W1, if on then 1 else 0)]
    case VOctet(b) => [Word(W1, b)]
    case VShort(x) => [Word(W2, x % 0x1_0000)]
    case VInt(x) => [Word(W4, x % 0x1_0000_0000)]
    case VUInt(x) => [Word(W4, x)]
    case VDouble(bits) => [Word(W8, bits)]
    case VBlob(data) => [Raw(data)]
    case VText(s) => [Word(W4, |s| + 1), Raw(s + [0])]
    case VBoth(x, y) => Flat(x) + Flat(y)
    case VList(items) => [Word(W4, |items|)] + FlatAll(items)
  }

  function FlatAll(vs: seq<Value>): seq<Prim>
    decreases vs
  {
    if vs == [] then [] else FlatAll(vs[..|vs| - 1]) + Flat(vs[|vs| - 1])
  }

  // ------------------------------------------------------------------- reading

  /** The two things a reader does at a position, for any kind of input. */
  datatype Source = Source(word: (nat, Width) -> Option<(nat, nat)>, raw: (nat, nat) -> Option<(seq<byte>, nat)>)

  /** A buffer read from alignment base `base`. */
  function BufferSource(buf: seq<byte>, base: nat): Source {
    Source((pos: nat, w: Width) => if base <= pos <= |buf| then GetWord(buf, pos, base, w) else None,
           (pos: nat, n: nat) => if pos <= |buf| then GetRaw(buf, pos, n) else None)
  }

  /** `src` reads `buf` from alignment base `base`. */
  ghost predicate Over(src: Source, buf: seq<byte>, base: nat) {
    && (forall pos: nat, w {:trigger GetWord(buf, pos, base, w)} ::
          base <= pos <= |buf| ==> src.word(pos, w) == GetWord(buf, pos, base, w))
    && (forall pos: nat, n: nat {:trigger GetRaw(buf, pos, n)} ::
          pos <= |buf| ==> src.raw(pos, n) == GetRaw(buf, pos, n))
  }

  lemma BufferIsOver(buf: seq<byte>, base: nat)
    ensures Over(BufferSource(buf, base), buf, base)
  {
  }

  function ToSigned(x: nat, range: nat): int {
    if 2 * x >= range then x - range else x
  }

  lemma Signed16(x: int)
    requires -0x8000 <= x < 0x8000
    ensures ToSigned(x % 0x1_0000, 0x1_0000) == x
  {
  }

  lemma Signed32(x: int)
    requires -0x8000_0000 <= x < 0x8000_0000
    ensures ToSigned(x % 0x1_0000_0000, 0x1_0000_0000) == x
  {
  }

  /** The C string at the front of `b`. */
  function UpToNul(b: seq<byte>): (r: seq<byte>)
    ensures 0 !in r && |r| <= |b|
    ensures 0 !in b ==> r == b
  {
    if b == [] || b[0] == 0 then [] else [b[0]] + UpToNul(b[1..])
  }

  datatype Parsed = Parsed(value: Value, next: nat)
  datatype ParsedList = ParsedList(values: seq<Value>, next: nat)

  function NumberWidth(t: Type): Width {
    match t
    case Short => W2
    case Int => W4
    case UInt => W4
    case Double => W8
    case _ => W1
  }

  predicate IsNumber(t: Type) {
    t.Flag? || t.Octet? || t.Short? || t.Int? || t.UInt? || t.Double?
  }

  function NumberValue(t: Type, x: nat): Value {
    match t
    case Flag => VFlag(x != 0)
    case Short => VShort(ToSigned(x, 0x1_0000))
    case Int => VInt(ToSigned(x, 0x1_0000_0000))
    case UInt => VUInt(x)
    case Double => VDouble(x)
    case _ => VOctet(Low8(x))
  }

  type Reading = nat -> Option<Parsed>

  /** The decoder of a type: from a position to a value and the position behind it. */
  function Reader(t: Type, src: Source): Reading
    decreases t
  {
    match t
    case Blob(n) => ReadBlob(src, n)
    case Text(cap) => ReadText(src, cap)
    case Both(a, b) => Then(Reader(a, src), Reader(b, src))
    case List(max, e) => Counted(src, max, Reader(e, src))
    case _ => ReadNumber(src, t)
  }

  function ReadNumber(src: Source, t: Type): Reading {
    (pos: nat) =>
      match src.word(pos, NumberWidth(t))
      case None => None
      case Some((x, p)) => Some(Parsed(NumberValue(t, x), p))
  }

  function ReadBlob(src: Source, n: nat): Reading {
    (pos: nat) =>
      match src.raw(pos, n)
      case None => None
      case Some((d, p)) => Some(Parsed(VBlob(d), p))
  }

  /** A length that counts the terminator, that many bytes, and a terminator that is one. */
  function ReadText(src: Source, cap: nat): Reading {
    (pos: nat) =>
      match src.word(pos, W4)
      case None => None
      case Some((n, p)) => if n == 0 || n > cap then None else TextOf(n, src.raw(p, n))
  }

  function TextOf(n: nat, raw: Option<(seq<byte>, nat)>): Option<Parsed>
    requires n > 0
  {
    match raw
    case None => None
    case Some((d, p)) => if |d| != n || d[n - 1] != 0 then None else Some(Parsed(VText(UpToNul(d[..n - 1])), p))
  }

  function Then(a: Reading, b: Reading): Reading {
    (pos: nat) =>
      match a(pos)
      case None => None
      case Some(x) =>
        match b(x.next)
        case None => None
        case Some(y) => Some(Parsed(VBoth(x.value, y.value), y.next))
  }

  /** A count within the array, and that many elements. */
  function Counted(src: Source, max: nat, elem: Reading): Reading {
    (pos: nat) =>
      match src.word(pos, W4)
      case None => None
      case Some((n, p)) =>
        if n > max then None
        else match ReadMany(elem, n, p)
          case None => None
          case Some(l) => Some(Parsed(VList(l.values), l.next))
  }

  /** `n` elements in a row. */
  function ReadMany(elem: Reading, n: nat, pos: nat): Option<ParsedList>
    decreases n
  {
    if n == 0 then Some(ParsedList([], pos))
    else
      match ReadMany(elem, n - 1, pos)
      case None => None
      case Some(l) =>
        match elem(l.next)
        case None => None
        case Some(x) => Some(ParsedList(l.values + [x.value], x.next))
  }

  /** Element `k` stands between `at(k)` and `at(k + 1)`. */
  ghost predicate ElementAt(elem: Reading, vs: seq<Value>, at: nat -> nat, k: nat)
    requires k < |vs|
  {
    elem(at(k)) == Some(Parsed(vs[k], at(k + 1)))
  }

  lemma {:induction false} ManyReadBack(elem: Reading, vs: seq<Value>, at: nat -> nat, n: nat)
    requires n <= |vs| && forall k: nat :: k < |vs| ==> ElementAt(elem, vs, at, k)
    ensures ReadMany(elem, n, at(0)) == Some(ParsedList(vs[..n], at(n)))
  {
    if n > 0 {
      ManyReadBack(elem, vs, at, n - 1);
      assert ElementAt(elem, vs, at, n - 1);
      assert vs[..n] == vs[..n - 1] + [vs[n - 1]];
    }
  }

  // ------------------------------------------------ reading what was written

  /** At position `at(i)` of the input stands primitive `i`, and behind it is `at(i + 1)`. */
  ghost predicate Tape(src: Source, ps: seq<Prim>, at: nat -> nat) {
    forall i: nat :: i < |ps| ==> TapeAt(src, ps, at, i)
  }

  ghost predicate TapeAt(src: Source, ps: seq<Prim>, at: nat -> nat, i: nat)
    requires i < |ps|
  {
    PrimReads(src, ps[i], at(i), at(i + 1))
  }

  predicate PrimReads(src: Source, p: Prim, from: nat, to: nat) {
    match p
    case Word(w, v) => v < Limit(w) ==> src.word(from, w) == Some((v, to))
    case Raw(d) => src.raw(from, |d|) == Some((d, to))
  }

  /** The primitives of `v` stand in `ps` from index `i` on. */
  ghost predicate Stands(ps: seq<Prim>, i: nat, fs: seq<Prim>) {
    i + |fs| <= |ps| && ps[i..i + |fs|] == fs
  }

  lemma StandsSplit(ps: seq<Prim>, i: nat, a: seq<Prim>, b: seq<Prim>)
    requires Stands(ps, i, a + b)
    ensures Stands(ps, i, a) && Stands(ps, i + |a|, b)
  {
    var all := ps[i..i + |a + b|];
    assert ps[i..i + |a|] == all[..|a|] == a;
    assert ps[i + |a|..i + |a| + |b|] == all[|a|..] == b;
  }

  lemma StandsOne(ps: seq<Prim>, i: nat, p: Prim)
    requires Stands(ps, i, [p])
    ensures i < |ps| && ps[i] == p
  {
    assert ps[i] == ps[i..i + 1][0];
  }

  lemma NumberReadsBack(t: Type, v: Value)
    requires Fits(t, v) && IsNumber(t)
    ensures Flat(v) == [Word(NumberWidth(t), Flat(v)[0].value)]
    ensures Flat(v)[0].value < Limit(NumberWidth(t)) && NumberValue(t, Flat(v)[0].value) == v
  {
    if t.Short? {
      Signed16(v.short);
    } else if t.Int? {
      Signed32(v.number);
    }
  }

  /** `v`, which takes `n` primitives, reads back from where it stands. */
  ghost predicate Back(r: Reading, v: Value, n: nat, at: nat -> nat, i: nat) {
    r(at(i)) == Some(Parsed(v, at(i + n)))
  }

  lemma NumberAt(t: Type, v: Value, src: Source, ps: seq<Prim>, at: nat -> nat, i: nat)
    requires Tape(src, ps, at) && Stands(ps, i, Flat(v)) && Fits(t, v) && IsNumber(t)
    ensures Back(ReadNumber(src, t), v, |Flat(v)|, at, i)
  {
    NumberReadsBack(t, v);
    StandsOne(ps, i, Flat(v)[0]);
    assert TapeAt(src, ps, at, i);
  }

  lemma TextAt(cap: nat, s: seq<byte>, src: Source, ps: seq<Prim>, at: nat -> nat, i: nat)
    requires Tape(src, ps, at) && Stands(ps, i, [Word(W4, |s| + 1), Raw(s + [0])]) && Fits(Text(cap), VText(s))
    ensures Back(ReadText(src, cap), VText(s), 2, at, i)
  {
    StandsSplit(ps, i, [Word(W4, |s| + 1)], [Raw(s + [0])]);
    StandsOne(ps, i, Word(W4, |s| + 1));
    StandsOne(ps, i + 1, Raw(s + [0]));
    assert TapeAt(src, ps, at, i);
    assert TapeAt(src, ps, at, i + 1);
    assert (s + [0])[..|s|] == s;
  }

  lemma BlobAt(data: seq<byte>, src: Source, ps: seq<Prim>, at: nat -> nat, i: nat)
    requires Tape(src, ps, at) && Stands(ps, i, [Raw(data)])
    ensures Back(ReadBlob(src, |data|), VBlob(data), 1, at, i)
  {
    StandsOne(ps, i, Raw(data));
    assert TapeAt(src, ps, at, i);
  }

  lemma BothBack(a: Reading, b: Reading, x: Value, y: Value, n: nat, m: nat, at: nat -> nat, i: nat)
    requires Back(a, x, n, at, i) && Back(b, y, m, at, i + n)
    ensures Back(Then(a, b), VBoth(x, y), n + m, at, i)
  {
  }

  /** Where element `k` of a list starts, counted in primitives. */
  function ItemStart(items: seq<Value>, k: nat): nat
    requires k <= |items|
  {
    |FlatAll(items[..k])|
  }

  lemma ItemStarts(items: seq<Value>, k: nat)
    requires k < |items|
    ensures ItemStart(items, k + 1) == ItemStart(items, k) + |Flat(items[k])|
  {
    assert items[..k + 1][..k] == items[..k];
  }

  lemma ListBack(src: Source, max: nat, elem: Reading, items: seq<Value>, from: nat, here: nat -> nat)
    requires |items| <= max && src.word(from, W4) == Some((|items|, here(0)))
    requires forall k: nat :: k < |items| ==> ElementAt(elem, items, here, k)
    ensures Counted(src, max, elem)(from) == Some(Parsed(VList(items), here(|items|)))
  {
    ManyReadBack(elem, items, here, |items|);
    assert items[..|items|] == items;
  }

  lemma CountAt(n: nat, src: Source, ps: seq<Prim>, at: nat -> nat, i: nat, rest: seq<Prim>)
    requires Tape(src, ps, at) && Stands(ps, i, [Word(W4, n)] + rest) && n < Limit(W4)
    ensures src.word(at(i), W4) == Some((n, at(i + 1))) && Stands(ps, i + 1, rest)
  {
    StandsSplit(ps, i, [Word(W4, n)], rest);
    StandsOne(ps, i, Word(W4, n));
    assert TapeAt(src, ps, at, i);
  }

  lemma {:induction false} StandsItem(ps: seq<Prim>, i: nat, vs: seq<Value>, k: nat)
    requires k < |vs| && Stands(ps, i, FlatAll(vs))
    ensures Stands(ps, i + ItemStart(vs, k), Flat(vs[k]))
    decreases |vs|
  {
    var init, last := vs[..|vs| - 1], vs[|vs| - 1];
    StandsSplit(ps, i, FlatAll(init), Flat(last));
    assert init[..k] == vs[..k];
    if k < |init| {
      StandsItem(ps, i, init, k);
    }
  }

  /** The tape position behind the count and `k` elements of a list at `i`. */
  function ItemAt(items: seq<Value>, at: nat -> nat, i: nat, k: nat): nat
    requires k <= |items|
  {
    at(i + 1 + ItemStart(items, k))
  }

  lemma ItemEnds(items: seq<Value>, at: nat -> nat, i: nat)
    ensures ItemAt(items, at, i, 0) == at(i + 1) && ItemAt(items, at, i, |items|) == at(i + |Flat(VList(items))|)
  {
    assert items[..0] == [] && items[..|items|] == items;
  }

  lemma ItemStep(elem: Reading, items: seq<Value>, at: nat -> nat, i: nat, k: nat)
    requires k < |items| && Back(elem, items[k], |Flat(items[k])|, at, i + 1 + ItemStart(items, k))
    ensures elem(ItemAt(items, at, i, k)) == Some(Parsed(items[k], ItemAt(items, at, i, k + 1)))
  {
    ItemStarts(items, k);
  }

  /** For every type and every value that fits it, wherever it stands on the tape. */
  lemma {:induction false} ReadsBack(t: Type, v: Value, src: Source, ps: seq<Prim>, at: nat -> nat, i: nat)
    requires Tape(src, ps, at) && Stands(ps, i, Flat(v)) && Fits(t, v)
    ensures Back(Reader(t, src), v, |Flat(v)|, at, i)
    decreases v, 2
  {
    match v
    case VBoth(x, y) => BothReadsBack(t.first, t.second, x, y, Flat(x), Flat(y), src, ps, at, i);
    case VList(items) => ListReadsBack(t.max, t.elem, items, src, ps, at, i);
    case VText(s) => TextAt(t.cap, s, src, ps, at, i);
    case VBlob(d) => BlobAt(d, src, ps, at, i);
    case _ => NumberAt(t, v, src, ps, at, i);
  }

  lemma {:induction false} BothReadsBack(a: Type, b: Type, x: Value, y: Value, fx: seq<Prim>, fy: seq<Prim>,
      src: Source, ps: seq<Prim>, at: nat -> nat, i: nat)
    requires Tape(src, ps, at) && Stands(ps, i, fx + fy) && Fits(a, x) && Fits(b, y) && fx == Flat(x) && fy == Flat(y)
    ensures Back(Then(Reader(a, src), Reader(b, src)), VBoth(x, y), |fx + fy|, at, i)
    decreases VBoth(x, y), 1
  {
    if Stands(ps, i, fx) {
      ReadsBack(a, x, src, ps, at, i);
    }
    if Stands(ps, i + |fx|, fy) {
      ReadsBack(b, y, src, ps, at, i + |fx|);
    }
    ThenBack(Reader(a, src), Reader(b, src), x, y, ps, fx, fy, at, i);
  }

  lemma ThenBack(a: Reading, b: Reading, x: Value, y: Value, ps: seq<Prim>, fx: seq<Prim>, fy: seq<Prim>,
      at: nat -> nat, i: nat)
    requires Stands(ps, i, fx + fy)
    requires Stands(ps, i, fx) ==> Back(a, x, |fx|, at, i)
    requires Stands(ps, i + |fx|, fy) ==> Back(b, y, |fy|, at, i + |fx|)
    ensures Back(Then(a, b), VBoth(x, y), |fx + fy|, at, i)
  {
    StandsSplit(ps, i, fx, fy);
    BothBack(a, b, x, y, |fx|, |fy|, at, i);
  }

  lemma {:induction false} ListReadsBack(max: nat, t: Type, items: seq<Value>, src: Source, ps: seq<Prim>,
      at: nat -> nat, i: nat)
    requires Tape(src, ps, at) && Stands(ps, i, Flat(VList(items))) && Fits(List(max, t), VList(items))
    ensures Back(Counted(src, max, Reader(t, src)), VList(items), |Flat(VList(items))|, at, i)
    decreases VList(items), 1
  {
    var elem := Reader(t, src);
    var here := (k: nat) => if k <= |items| then ItemAt(items, at, i, k) else 0;
    CountAt(|items|, src, ps, at, i, FlatAll(items));
    forall k: nat | k < |items|
      ensures ElementAt(elem, items, here, k)
    {
      ItemReadsBack(t, items, src, ps, at, i, k);
    }
    ItemEnds(items, at, i);
    ListBack(src, max, elem, items, at(i), here);
  }

  lemma {:induction false} ItemReadsBack(t: Type, items: seq<Value>, src: Source, ps: seq<Prim>, at: nat -> nat,
      i: nat, k: nat)
    requires Tape(src, ps, at) && Stands(ps, i + 1, FlatAll(items)) && k < |items| && Fits(t, items[k])
    ensures Reader(t, src)(ItemAt(items, at, i, k)) == Some(Parsed(items[k], ItemAt(items, at, i, k + 1)))
    decreases VList(items), 0
  {
    StandsItem(ps, i + 1, items, k);
    ReadsBack(t, items[k], src, ps, at, i + 1 + ItemStart(items, k));
    ItemStep(Reader(t, src), items, at, i, k);
  }

  // -------------------------------------------------------------------- bytes

  /** The bytes of a value from the alignment base on. */
  function Encoded(lay: Layout, v: Value): seq<byte> {
    Laying(lay, Flat(v))
  }

  lemma PrimReadsBack(p: Prim, src: Source, buf: seq<byte>, base: nat, from: nat, to: nat)
    requires Over(src, buf, base) && base <= from <= to <= |buf| && buf[from..to] == Laid(from - base, p)
    ensures PrimReads(src, p, from, to)
  {
    match p
    case Word(w, v) =>
      if v < Limit(w) {
        LimitIsCapacity(w);
        WordFrom(buf, from, to, base, w, v);
      }
    case Raw(d) => RawFrom(buf, from, to, d);
  }

  lemma BufferCell(lay: Layout, src: Source, buf: seq<byte>, base: nat, ps: seq<Prim>, i: nat)
    requires IsCdr(lay) && Over(src, buf, base) && Spells(lay, buf, base, ps) && i < |ps|
    ensures PrimReads(src, ps[i], base + Pos(lay, ps, i), base + Pos(lay, ps, i + 1))
  {
    var a, b := Pos(lay, ps, i), Pos(lay, ps, i + 1);
    PrimAt(lay, buf, base, ps, i);
    assert lay(a, ps[i]) == Laid(a, ps[i]);
    PrimReadsBack(ps[i], src, buf, base, base + a, base + b);
  }

  lemma BufferTape(lay: Layout, src: Source, buf: seq<byte>, base: nat, ps: seq<Prim>, at: nat -> nat)
    requires IsCdr(lay) && Over(src, buf, base) && Spells(lay, buf, base, ps)
    requires forall i: nat {:trigger Pos(lay, ps, i)} :: i <= |ps| ==> at(i) == base + Pos(lay, ps, i)
    ensures Tape(src, ps, at)
  {
    forall i: nat | i < |ps|
      ensures TapeAt(src, ps, at, i)
    {
      BufferCell(lay, src, buf, base, ps, i);
      assert at(i) == base + Pos(lay, ps, i) && at(i + 1) == base + Pos(lay, ps, i + 1);
    }
  }

  lemma TapeEnds(lay: Layout, base: nat, ps: seq<Prim>, at: nat -> nat)
    requires forall i: nat {:trigger Pos(lay, ps, i)} :: i <= |ps| ==> at(i) == base + Pos(lay, ps, i)
    ensures at(0) == base && at(|ps|) == base + |Laying(lay, ps)|
  {
    assert ps[..0] == [] && ps[..|ps|] == ps;
    assert Pos(lay, ps, 0) == 0 && Pos(lay, ps, |ps|) == |Laying(lay, ps)|;
  }

  /** Every value that fits its type reads back from its own bytes, whatever precedes and follows,
      and the reader ends exactly where the writer did. */
  lemma RoundTrip(lay: Layout, t: Type, v: Value, src: Source, buf: seq<byte>, base: nat)
    requires IsCdr(lay) && Fits(t, v) && Over(src, buf, base) && Spells(lay, buf, base, Flat(v))
    ensures Reader(t, src)(base) == Some(Parsed(v, base + |Encoded(lay, v)|))
  {
    var ps := Flat(v);
    var at := (i: nat) => if i <= |ps| then base + Pos(lay, ps, i) else 0;
    BufferTape(lay, src, buf, base, ps, at);
    TapeEnds(lay, base, ps, at);
    assert ps[0..|ps|] == ps;
    ReadsBack(t, v, src, ps, at, 0);
  }

  // ---------------------------------------------------------- decoding anything

  /** What a reader of `len` bytes can return at all. */
  ghost predicate Sound(src: Source, len: nat) {
    && (forall pos: nat, w :: src.word(pos, w).Some? ==>
        src.word(pos, w).value.0 < Limit(w) && pos <= src.word(pos, w).value.1 <= len)
    && (forall pos: nat, n: nat :: src.raw(pos, n).Some? ==>
        |src.raw(pos, n).value.0| == n && pos <= src.raw(pos, n).value.1 <= len)
  }

  lemma BufferIsSound(buf: seq<byte>, base: nat)
    ensures Sound(BufferSource(buf, base), |buf|)
  {
    var src := BufferSource(buf, base);
    forall pos: nat, w | src.word(pos, w).Some?
      ensures src.word(pos, w).value.0 < Limit(w)
    {
      var p := pos + Padding(pos - base, w);
      FromLittleBound(buf[p..p + Size(w)]);
      LimitIsCapacity(w);
    }
  }

  /** `r` gives only values of type `t`, and ends within the input. */
  ghost predicate Yields(r: Reading, t: Type, len: nat, pos: nat) {
    r(pos).Some? ==> Fits(t, r(pos).value.value) && pos <= r(pos).value.next <= len
  }

  lemma {:induction false} ManyYields(elem: Reading, t: Type, len: nat, n: nat, pos: nat)
    requires pos <= len && forall q: nat :: q <= len ==> Yields(elem, t, len, q)
    ensures var l := ReadMany(elem, n, pos);
            l.Some? ==> |l.value.values| == n && pos <= l.value.next <= len && forall i :: 0 <= i < n ==>
                Fits(t, l.value.values[i])
  {
    if n > 0 {
      ManyYields(elem, t, len, n - 1, pos);
      var l := ReadMany(elem, n - 1, pos);
      if l.Some? {
        assert Yields(elem, t, len, l.value.next);
      }
    }
  }

  /** Whatever the bytes, what a decoder accepts fits the struct: no string or array member is
      filled past its capacity, and nothing past the end of the buffer is read. */
  lemma {:induction false} DecodedFits(t: Type, src: Source, len: nat, pos: nat)
    requires Sound(src, len) && pos <= len
    ensures Yields(Reader(t, src), t, len, pos)
    decreases t
  {
    match t
    case Both(a, b) =>
      DecodedFits(a, src, len, pos);
      var x := Reader(a, src)(pos);
      if x.Some? {
        DecodedFits(b, src, len, x.value.next);
      }
    case List(max, e) =>
      forall q: nat | q <= len
        ensures Yields(Reader(e, src), e, len, q)
      {
        DecodedFits(e, src, len, q);
      }
      CountedYields(Reader(e, src), e, src, len, max, pos);
    case Text(cap) => TextYields(src, len, cap, pos);
    case Blob(n) => assert Reader(t, src) == ReadBlob(src, n);
    case _ => NumberYields(t, src, len, pos);
  }

  lemma CountedYields(elem: Reading, t: Type, src: Source, len: nat, max: nat, pos: nat)
    requires Sound(src, len) && pos <= len && forall q: nat :: q <= len ==> Yields(elem, t, len, q)
    ensures Yields(Counted(src, max, elem), List(max, t), len, pos)
  {
    var c := src.word(pos, W4);
    if c.Some? {
      ManyYields(elem, t, len, c.value.0, c.value.1);
    }
  }

  lemma TextYields(src: Source, len: nat, cap: nat, pos: nat)
    requires Sound(src, len) && pos <= len
    ensures Yields(ReadText(src, cap), Text(cap), len, pos)
  {
    var c := src.word(pos, W4);
    if c.Some? {
      var d := src.raw(c.value.1, c.value.0);
    }
  }

  lemma NumberYields(t: Type, src: Source, len: nat, pos: nat)
    requires Sound(src, len) && pos <= len && IsNumber(t)
    ensures Yields(ReadNumber(src, t), t, len, pos)
  {
    var c := src.word(pos, NumberWidth(t));
  }

  /** The same for the bytes of any buffer. */
  lemma BufferDecodedFits(t: Type, buf: seq<byte>, base: nat, pos: nat)
    requires pos <= |buf|
    ensures Yields(Reader(t, BufferSource(buf, base)), t, |buf|, pos)
  {
    BufferIsSound(buf, base);
    DecodedFits(t, BufferSource(buf, base), |buf|, pos);
  }

  // ------------------------------------------------------- what is accepted

  /** `p` is the first position from `pos` on that is a multiple of the width away from `base`. */
  predicate Aligned(base: nat, pos: nat, w: Width, p: nat) {
    base <= pos <= p < pos + Size(w) && Multiple(p - base, w)
  }

  lemma AlignedIs(base: nat, pos: nat, w: Width, p: nat)
    requires Aligned(base, pos, w, p)
    ensures p == pos + Padding(pos - base, w)
  {
    PaddingAligns(pos - base, w);
    match w
    case W1 =>
    case W2 => OneMultiple(pos - base + Padding(pos - base, w), p - base, pos - base, 2);
    case W4 => OneMultiple(pos - base + Padding(pos - base, w), p - base, pos - base, 4);
    case W8 => OneMultiple(pos - base + Padding(pos - base, w), p - base, pos - base, 8);
  }

  lemma OneMultiple(x: nat, y: nat, from: nat, n: nat)
    requires (n == 2 || n == 4 || n == 8) && x % n == 0 && y % n == 0 && from <= x < from + n && from <= y < from + n
    ensures x == y
  {
  }

  /** A number is accepted exactly when its bytes are there; a flag is any octet, set unless zero. */
  lemma NumberAccepted(src: Source, buf: seq<byte>, base: nat, t: Type, pos: nat, p: nat)
    requires Over(src, buf, base) && pos <= |buf| && IsNumber(t) && Aligned(base, pos, NumberWidth(t), p)
    ensures var size := Size(NumberWidth(t)); var r := Reader(t, src)(pos);
            && (r.Some? <==> p + size <= |buf|)
            && (r.Some? ==> r.value == Parsed(NumberValue(t, FromLittle(buf[p..p + size])), p + size))
            && (r.Some? && t.Flag? ==> r.value.value == VFlag(buf[p] != 0))
  {
    AlignedIs(base, pos, NumberWidth(t), p);
    var size := Size(NumberWidth(t));
    if p + size <= |buf| {
      assert src.word(pos, NumberWidth(t)) == GetWord(buf, pos, base, NumberWidth(t));
      if t.Flag? {
        OneByte(buf, p);
      }
    } else {
      assert GetWord(buf, pos, base, NumberWidth(t)) == None;
    }
  }

  lemma OneByte(buf: seq<byte>, p: nat)
    requires p < |buf|
    ensures FromLittle(buf[p..p + 1]) == buf[p]
  {
    assert buf[p..p + 1][1..] == [];
  }

  /** A string is accepted exactly when its length is from 1 to the capacity, that many bytes are
      there, and the last is a terminator; its characters are those in front of the first one. */
  lemma TextAccepted(src: Source, buf: seq<byte>, base: nat, cap: nat, pos: nat, p: nat)
    requires Over(src, buf, base) && pos <= |buf| && Aligned(base, pos, W4, p)
    ensures var r := Reader(Text(cap), src)(pos);
            && (r.Some? <==> p + 4 <= |buf| && TextStands(buf, p + 4, FromLittle(buf[p..p + 4]), cap))
            && (r.Some? ==> var n := FromLittle(buf[p..p + 4]);
                            r.value == Parsed(VText(UpToNul(buf[p + 4..p + 3 + n])), p + 4 + n))
  {
    AlignedIs(base, pos, W4, p);
    assert src.word(pos, W4) == GetWord(buf, pos, base, W4);
    if p + 4 <= |buf| {
      var n := FromLittle(buf[p..p + 4]);
      assert src.raw(p + 4, n) == GetRaw(buf, p + 4, n);
      if n > 0 {
        TextFrom(buf, p + 4, n);
      }
    }
  }

  lemma TextFrom(buf: seq<byte>, at: nat, n: nat)
    requires n > 0 && at <= |buf|
    ensures var r := TextOf(n, GetRaw(buf, at, n));
            && (r.Some? <==> at + n <= |buf| && buf[at + n - 1] == 0)
            && (r.Some? ==> r.value == Parsed(VText(UpToNul(buf[at..at + n - 1])), at + n))
  {
    if at + n <= |buf| {
      assert buf[at..at + n][..n - 1] == buf[at..at + n - 1];
    }
  }

  predicate TextStands(buf: seq<byte>, at: nat, n: nat, cap: nat) {
    1 <= n <= cap && at + n <= |buf| && buf[at + n - 1] == 0
  }

  /** The C string at the front is what precedes the first terminator. */
  lemma {:induction false} UpToNulIs(b: seq<byte>)
    ensures var n := |UpToNul(b)|; UpToNul(b) == b[..n] && (n < |b| ==> b[n] == 0)
  {
    if b != [] && b[0] != 0 {
      UpToNulIs(b[1..]);
    }
  }

  /** A sequence is accepted exactly when its count is within the array and its elements are read one
      behind the other. */
  lemma ListAccepted(src: Source, buf: seq<byte>, base: nat, max: nat, e: Type, pos: nat, p: nat)
    requires Over(src, buf, base) && pos <= |buf| && Aligned(base, pos, W4, p)
    ensures var r := Reader(List(max, e), src)(pos);
            && (r.Some? <==> p + 4 <= |buf| && FromLittle(buf[p..p + 4]) <= max
                             && ReadMany(Reader(e, src), FromLittle(buf[p..p + 4]), p + 4).Some?)
            && (r.Some? ==> var items := ReadMany(Reader(e, src), FromLittle(buf[p..p + 4]), p + 4).value;
                            r.value == Parsed(VList(items.values), items.next))
  {
    AlignedIs(base, pos, W4, p);
    assert src.word(pos, W4) == GetWord(buf, pos, base, W4);
  }
}
