/** `xrce/src/cdr.c` with positions advanced in place: the writer over a buffer, the reader over
    received bytes, and the field-by-field calls the message codecs make. */
module CdrStream {
  import opened Options
  import opened Bytes
  import opened Cdr
  import opened CdrValues

  /** Element counts are `uint32_t`. */
  predicate Countable(v: Value)
    decreases v
  {
    match v
    case VBoth(x, y) => Countable(x) && Countable(y)
    case VList(items) => |items| < Limit(W4) && forall i :: 0 <= i < |items| ==> Countable(items[i])
    case _ => true
  }

  /** No string is too long for the 32-bit length field; the writer refuses those that are. */
  predicate TextsFit(v: Value)
    decreases v
  {
    match v
    case VText(s) => |s| + 1 < Limit(W4)
    case VBoth(x, y) => TextsFit(x) && TextsFit(y)
    case VList(items) => forall i :: 0 <= i < |items| ==> TextsFit(items[i])
    case _ => true
  }

  lemma BothParts(x: Value, y: Value)
    ensures Countable(VBoth(x, y)) <==> Countable(x) && Countable(y)
    ensures TextsFit(VBoth(x, y)) <==> TextsFit(x) && TextsFit(y)
  {
  }

  lemma {:induction false} FitsIsCountable(t: Type, v: Value)
    requires Fits(t, v)
    ensures Countable(v) && TextsFit(v)
    decreases v
  {
    match v
    case VBoth(x, y) =>
      FitsIsCountable(t.first, x);
      FitsIsCountable(t.second, y);
    case VList(items) =>
      forall i | 0 <= i < |items|
        ensures Countable(items[i]) && TextsFit(items[i])
      {
        FitsIsCountable(t.elem, items[i]);
      }
    case _ =>
  }

  /** `xrce_cdr_writer_t`; the capacity is the length of `buf`. */
  class Writer {
    const buf: array<byte>
    var pos: nat
    var alignBase: nat

    ghost predicate Valid()
      reads this
    {
      alignBase <= pos <= buf.Length
    }

    /** Since the alignment base exactly the primitives `ps` were written. */
    ghost predicate Holds(lay: Layout, ps: seq<Prim>)
      reads this, buf
    {
      Valid() && buf[alignBase..pos] == Laying(lay, ps)
    }

    /** `xrce_cdr_writer_init`. */
    constructor (buf: array<byte>)
      ensures this.buf == buf && pos == 0 && alignBase == 0
    {
      this.buf, pos, alignBase := buf, 0, 0;
    }

    /** The loop of `align_writer`: `pad` zeros, or as many as there is room for. */
    method PutPadding(pad: nat)
      requires Valid()
      modifies this`pos, buf
      ensures Valid() && old(pos) <= pos && buf[..old(pos)] == old(buf[..pos])
      ensures if old(pos) + pad <= buf.Length then buf[..pos] == old(buf[..pos]) + Zeros(pad) else pos == buf.Length
    {
      var i := 0;
      ghost var start := pos;
      ghost var was := buf[..];
      while i < pad && pos < buf.Length
        invariant i <= pad && pos == start + i <= buf.Length
        invariant buf[..pos] == was[..start] + Zeros(i)
      {
        buf[pos] := 0;
        pos, i := pos + 1, i + 1;
      }
    }

    /** The byte loop of a number that fits. */
    method PutLittle(n: nat, v: nat)
      requires Valid() && pos + n <= buf.Length
      modifies this`pos, buf
      ensures Valid() && pos == old(pos) + n && buf[..pos] == old(buf[..pos]) + Little(v, n)
    {
      var rest := v;
      ghost var start, was := pos, buf[..];
      assert was[..start] == old(buf[..pos]);
      for i := 0 to n
        invariant pos == start + i && rest >= 0
        invariant buf[..pos] + Little(rest, n - i) == was[..start] + Little(v, n)
      {
        ghost var before := buf[..pos];
        buf[pos] := Low8(rest);
        pos := pos + 1;
        assert buf[..pos] == before + [Low8(rest)];
        assert before + ([Low8(rest)] + Little(rest / 256, n - i - 1)) == buf[..pos] + Little(rest / 256, n - i - 1);
        rest := rest / 256;
      }
      assert Little(rest, 0) == [];
    }

    method PutPadded(pad: nat, n: nat, v: nat) returns (ok: bool)
      requires Valid() && n > 0
      modifies this`pos, buf
      ensures Valid() && (ok <==> old(pos) + pad + n <= buf.Length)
      ensures old(pos) <= pos && buf[..old(pos)] == old(buf[..pos])
      ensures ok ==> buf[..pos] == old(buf[..pos]) + (Zeros(pad) + Little(v, n))
    {
      ghost var was := buf[..pos];
      PutPadding(pad);
      if n > buf.Length - pos {
        return false;
      }
      PutLittle(n, v);
      assert was + Zeros(pad) + Little(v, n) == was + (Zeros(pad) + Little(v, n));
      ok := true;
    }

    /** The writers of numbers: `xrce_cdr_write_u8`, `_i16`, `_u32`, `_f64`. */
    method WriteWord(w: Width, v: nat) returns (ok: bool)
      requires Valid()
      modifies this`pos, buf
      ensures Valid() && (ok <==> old(pos) + |Laid(old(pos) - alignBase, Word(w, v))| <= buf.Length)
      ensures old(pos) <= pos && buf[..old(pos)] == old(buf[..pos])
      ensures ok ==> buf[..pos] == old(buf[..pos]) + Laid(old(pos) - alignBase, Word(w, v))
    {
      ok := PutPadded(Padding(pos - alignBase, w), Size(w), v);
    }

    /** `xrce_cdr_write_bytes`. */
    method WriteBytes(data: seq<byte>) returns (ok: bool)
      requires Valid()
      modifies this`pos, buf
      ensures Valid() && (ok <==> old(pos) + |data| <= buf.Length)
      ensures old(pos) <= pos && buf[..old(pos)] == old(buf[..pos])
      ensures ok ==> buf[..pos] == old(buf[..pos]) + data
    {
      if |data| > buf.Length - pos {
        return false;
      }
      ghost var start, was := pos, buf[..];
      for i := 0 to |data|
        invariant pos == start + i && buf[..pos] == was[..start] + data[..i]
      {
        buf[pos] := data[i];
        pos := pos + 1;
      }
      assert data[..|data|] == data;
      ok := true;
    }

    /** `xrce_cdr_write_header`: the CDR_LE representation identifier; alignment starts over behind it. */
    method WriteHeader(ghost lay: Layout) returns (ok: bool)
      requires Valid()
      modifies this, buf
      ensures Valid() && (ok <==> old(pos) + 4 <= buf.Length)
      ensures ok ==> alignBase == pos == old(pos) + 4 && Holds(lay, []) && buf[..pos] == old(buf[..pos]) + [0, 1, 0, 0]
    {
      if 4 > buf.Length - pos {
        return false;
      }
      buf[pos], buf[pos + 1], buf[pos + 2], buf[pos + 3] := 0, 1, 0, 0;
      pos := pos + 4;
      alignBase := pos;
      ok := true;
    }

    /** One primitive behind those written so far. */
    method Put(p: Prim, ghost lay: Layout, ghost ps: seq<Prim>) returns (ok: bool)
      requires Holds(lay, ps) && IsCdr(lay)
      modifies this`pos, buf
      ensures Valid() && (ok <==> alignBase + |Laying(lay, ps + [p])| <= buf.Length)
      ensures ok ==> Holds(lay, ps + [p])
      ensures buf[..alignBase] == old(buf[..alignBase])
    {
      LayingSnoc(lay, ps, p);
      ok := PutBehind(p, lay, lay(pos - alignBase, p), Laying(lay, ps));
    }

    method PutBehind(p: Prim, ghost lay: Layout, ghost more: seq<byte>, ghost before: seq<byte>) returns (ok: bool)
      requires Valid() && IsCdr(lay) && more == lay(pos - alignBase, p) && buf[alignBase..pos] == before
      modifies this`pos, buf
      ensures Valid() && (ok <==> alignBase + |before + more| <= buf.Length)
      ensures ok ==> buf[alignBase..pos] == before + more
      ensures buf[..alignBase] == old(buf[..alignBase])
    {
      ghost var start, was := pos, buf[..];
      CdrLays(lay, pos - alignBase, p);
      ok := PutPrim(p, more);
      Behind(was, buf[..], alignBase, start, pos, more, ok);
    }

    method PutPrim(p: Prim, ghost more: seq<byte>) returns (ok: bool)
      requires Valid() && more == Laid(pos - alignBase, p)
      modifies this`pos, buf
      ensures Valid() && (ok <==> old(pos) + |more| <= buf.Length)
      ensures old(pos) <= pos && buf[..old(pos)] == old(buf[..pos])
      ensures ok ==> buf[..pos] == old(buf[..pos]) + more
    {
      match p {
        case Word(w, v) => ok := WriteWord(w, v);
        case Raw(data) => ok := WriteBytes(data);
      }
    }

    /** `xrce_cdr_write_string`. */
    method WriteString(s: seq<byte>, ghost lay: Layout, ghost ps: seq<Prim>) returns (ok: bool)
      requires Holds(lay, ps) && IsCdr(lay)
      modifies this`pos, buf
      ensures Valid()
      ensures ok <==> |s| + 1 < Limit(W4) && alignBase + |Laying(lay, ps + Flat(VText(s)))| <= buf.Length
      ensures ok ==> Holds(lay, ps + Flat(VText(s)))
      ensures buf[..alignBase] == old(buf[..alignBase])
    {
      var n := |s| + 1;
      if n > 0xFFFF_FFFF {
        return false;
      }
      ghost var count, text := Word(W4, n), Raw(s + [0]);
      assert ps + [count] + [text] == ps + Flat(VText(s));
      LayingPrefix(lay, ps + [count], [text]);
      ok := Put(Word(W4, n), lay, ps);
      if ok {
        ok := Put(Raw(s + [0]), lay, ps + [count]);
      }
    }

    /** The calls an encoder makes for a struct member, stopping at the first that fails. */
    method WriteValue(v: Value, ghost lay: Layout, ghost ps: seq<Prim>) returns (ok: bool)
      requires Holds(lay, ps) && IsCdr(lay) && Countable(v)
      modifies this`pos, buf
      ensures Valid() && (ok <==> TextsFit(v) && alignBase + |Laying(lay, ps + Flat(v))| <= buf.Length)
      ensures ok ==> Holds(lay, ps + Flat(v))
      ensures buf[..alignBase] == old(buf[..alignBase])
      decreases v, 1
    {
      match v {
        case VFlag(on) => ok := Put(Word(W1, if on then 1 else 0), lay, ps);
        case VOctet(b) => ok := Put(Word(W1, b), lay, ps);
        case VShort(x) => ok := Put(Word(W2, x % 0x1_0000), lay, ps);
        case VInt(x) => ok := Put(Word(W4, x % 0x1_0000_0000), lay, ps);
        case VUInt(x) => ok := Put(Word(W4, x), lay, ps);
        case VDouble(bits) => ok := Put(Word(W8, bits), lay, ps);
        case VBlob(data) => ok := Put(Raw(data), lay, ps);
        case VText(s) => ok := WriteString(s, lay, ps);
        case VBoth(x, y) => ok := WriteBoth(x, y, lay, ps, Flat(x), Flat(y));
        case VList(items) => ok := WriteItems(items, lay, ps);
      }
    }

    method WriteBoth(x: Value, y: Value, ghost lay: Layout, ghost ps: seq<Prim>, ghost xs: seq<Prim>,
        ghost ys: seq<Prim>)
      returns (ok: bool)
      requires Holds(lay, ps) && IsCdr(lay) && Countable(x) && Countable(y) && xs == Flat(x) && ys == Flat(y)
      modifies this`pos, buf
      ensures Valid()
      ensures ok <==> TextsFit(x) && TextsFit(y) && alignBase + |Laying(lay, ps + (xs + ys))| <= buf.Length
      ensures ok ==> Holds(lay, ps + (xs + ys))
      ensures buf[..alignBase] == old(buf[..alignBase])
      decreases VBoth(x, y), 0
    {
      Longer(lay, ps, xs, ys);
      ok := WriteValue(x, lay, ps);
      if ok {
        ok := WriteValue(y, lay, ps + xs);
      }
    }

    /** A count and a loop over the elements, as in `xrce_cdr_write_seq_i32` and the array encoders. */
    method WriteItems(items: seq<Value>, ghost lay: Layout, ghost ps: seq<Prim>) returns (ok: bool)
      requires Holds(lay, ps) && IsCdr(lay) && Countable(VList(items))
      modifies this`pos, buf
      ensures Valid()
      ensures ok <==> TextsFit(VList(items)) && alignBase + |Laying(lay, ps + Flat(VList(items)))| <= buf.Length
      ensures ok ==> Holds(lay, ps + Flat(VList(items)))
      ensures buf[..alignBase] == old(buf[..alignBase])
      decreases VList(items), 0
    {
      ghost var count := [Word(W4, |items|)];
      Longer(lay, ps, count, FlatAll(items));
      ok := Put(Word(W4, |items|), lay, ps);
      if ok {
        ok := WriteLoop(items, lay, ps + count);
      }
    }

    method WriteLoop(items: seq<Value>, ghost lay: Layout, ghost base: seq<Prim>) returns (ok: bool)
      requires Holds(lay, base) && IsCdr(lay) && forall i :: 0 <= i < |items| ==> Countable(items[i])
      modifies this`pos, buf
      ensures Valid()
      ensures ok <==> && (forall i :: 0 <= i < |items| ==> TextsFit(items[i]))
                      && alignBase + |Laying(lay, base + FlatAll(items))| <= buf.Length
      ensures ok ==> Holds(lay, base + FlatAll(items))
      ensures buf[..alignBase] == old(buf[..alignBase])
      decreases items, 0
    {
      ghost var at := Prefixes(lay, base, items);
      for i := 0 to |items|
        invariant Holds(lay, at[i]) && buf[..alignBase] == old(buf[..alignBase])
        invariant forall j :: 0 <= j < i ==> TextsFit(items[j])
      {
        assert PrefixStep(lay, at, items, i);
        ok := WriteValue(items[i], lay, at[i]);
        if !ok {
          return;
        }
      }
      ok := true;
    }
  }

  /** What is still to come does not shorten what was written. */
  lemma Longer(lay: Layout, ps: seq<Prim>, xs: seq<Prim>, ys: seq<Prim>)
    ensures ps + xs + ys == ps + (xs + ys)
    ensures |Laying(lay, ps + xs)| <= |Laying(lay, ps + (xs + ys))|
  {
    assert ps + xs + ys == ps + (xs + ys);
    LayingPrefix(lay, ps + xs, ys);
  }

  /** `xrce_cdr_reader_t`. */
  class BufferReader {
    const buf: seq<byte>
    var pos: nat
    var alignBase: nat

    ghost predicate Valid()
      reads this
    {
      alignBase <= pos <= |buf|
    }

    /** `xrce_cdr_reader_init`. */
    constructor (buf: seq<byte>)
      ensures this.buf == buf && pos == 0 && alignBase == 0
    {
      this.buf, pos, alignBase := buf, 0, 0;
    }

    /** `xrce_cdr_read_header`: four bytes that must say CDR_LE; alignment starts over behind them. */
    method ReadHeader() returns (ok: bool)
      requires Valid()
      modifies this
      ensures Valid() && (ok <==> old(pos) + 4 <= |buf| && buf[old(pos)] == 0 && buf[old(pos) + 1] == 1)
      ensures ok ==> alignBase == pos == old(pos) + 4
    {
      if 4 > |buf| - pos {
        return false;
      }
      ok := buf[pos] == 0 && buf[pos + 1] == 1;
      pos := pos + 4;
      alignBase := pos;
    }

    /** The byte loop of a number. */
    method TakeLittle(n: nat) returns (v: nat)
      requires Valid() && pos + n <= |buf|
      modifies this`pos
      ensures Valid() && pos == old(pos) + n && v == FromLittle(buf[old(pos)..pos])
    {
      ghost var start, bytes := pos, buf[pos..pos + n];
      var unit := 1;
      v := 0;
      for i := 0 to n
        invariant pos == start && unit > 0 && v + unit * FromLittle(bytes[i..]) == FromLittle(bytes)
      {
        assert bytes[i..][1..] == bytes[i + 1..] && bytes[i] == buf[pos + i];
        AddDigit(v, unit, bytes[i], FromLittle(bytes[i + 1..]));
        v := v + buf[pos + i] * unit;
        unit := unit * 256;
      }
      assert bytes[n..] == [];
      pos := pos + n;
    }

    /** The readers of numbers: `align_reader`, the bounds check, the byte loop. */
    method ReadWord(w: Width) returns (r: Option<nat>)
      requires Valid()
      modifies this`pos
      ensures Valid()
      ensures var g := GetWord(buf, old(pos), alignBase, w);
              if g.None? then r == None else r == Some(g.value.0) && pos == g.value.1
    {
      var pad, n := Padding(pos - alignBase, w), Size(w);
      if pad > |buf| - pos {
        return None;
      }
      pos := pos + pad;
      if n > |buf| - pos {
        return None;
      }
      var v := TakeLittle(n);
      r := Some(v);
    }

    /** `xrce_cdr_read_bytes`. */
    method ReadBytes(n: nat) returns (r: Option<seq<byte>>)
      requires Valid()
      modifies this`pos
      ensures Valid()
      ensures var g := GetRaw(buf, old(pos), n);
              if g.None? then r == None else r == Some(g.value.0) && pos == g.value.1
    {
      if n > |buf| - pos {
        return None;
      }
      r := Some(buf[pos..pos + n]);
      pos := pos + n;
    }
    /** The outcome is that of decoder result `g`. */
    ghost predicate Took(r: Option<Value>, g: Option<Parsed>)
      reads this
    {
      if g.None? then r == None else r == Some(g.value.value) && pos == g.value.next
    }

    method ReadNumberField(t: Type, ghost src: Source) returns (r: Option<Value>)
      requires Valid() && Over(src, buf, alignBase) && IsNumber(t)
      modifies this`pos
      ensures Valid() && Took(r, ReadNumber(src, t)(old(pos)))
    {
      var x := ReadWord(NumberWidth(t));
      if x.None? {
        return None;
      }
      r := Some(NumberValue(t, x.value));
    }

    method ReadBlobField(n: nat, ghost src: Source) returns (r: Option<Value>)
      requires Valid() && Over(src, buf, alignBase)
      modifies this`pos
      ensures Valid() && Took(r, ReadBlob(src, n)(old(pos)))
    {
      var d := ReadBytes(n);
      if d.None? {
        return None;
      }
      r := Some(VBlob(d.value));
    }

    /** `xrce_cdr_read_string` into an array of `cap` characters. */
    method ReadString(cap: nat, ghost src: Source) returns (r: Option<Value>)
      requires Valid() && Over(src, buf, alignBase)
      modifies this`pos
      ensures Valid() && Took(r, ReadText(src, cap)(old(pos)))
    {
      var n := ReadWord(W4);
      if n.None? || n.value == 0 || n.value > cap {
        return None;
      }
      var d := ReadBytes(n.value);
      if d.None? || d.value[n.value - 1] != 0 {
        return None;
      }
      r := Some(VText(UpToNul(d.value[..n.value - 1])));
    }

    /** The calls a decoder makes for a struct member, stopping at the first that fails. */
    method ReadValue(t: Type, ghost src: Source) returns (r: Option<Value>)
      requires Valid() && Over(src, buf, alignBase)
      modifies this`pos
      ensures Valid() && Took(r, Reader(t, src)(old(pos)))
      decreases t, 1
    {
      match t {
        case Blob(n) => r := ReadBlobField(n, src);
        case Text(cap) => r := ReadString(cap, src);
        case Both(a, b) => r := ReadBoth(a, b, src);
        case List(max, e) => r := ReadItems(max, e, src);
        case _ => r := ReadNumberField(t, src);
      }
    }

    method ReadBoth(a: Type, b: Type, ghost src: Source) returns (r: Option<Value>)
      requires Valid() && Over(src, buf, alignBase)
      modifies this`pos
      ensures Valid() && Took(r, Then(Reader(a, src), Reader(b, src))(old(pos)))
      decreases Both(a, b), 0
    {
      var x := ReadValue(a, src);
      if x.None? {
        return None;
      }
      var y := ReadValue(b, src);
      if y.None? {
        return None;
      }
      r := Some(VBoth(x.value, y.value));
    }

    /** A count within the array and a loop over the elements, as in the array decoders. */
    method ReadItems(max: nat, e: Type, ghost src: Source) returns (r: Option<Value>)
      requires Valid() && Over(src, buf, alignBase)
      modifies this`pos
      ensures Valid() && Took(r, Counted(src, max, Reader(e, src))(old(pos)))
      decreases List(max, e), 0
    {
      var n := ReadWord(W4);
      if n.None? || n.value > max {
        return None;
      }
      ghost var elem, from := Reader(e, src), pos;
      var items := [];
      for i := 0 to n.value
        invariant Valid() && |items| == i <= max && ReadMany(elem, i, from) == Some(ParsedList(items, pos))
      {
        var x := ReadValue(e, src);
        if x.None? {
          FailsForGood(elem, i + 1, n.value, from);
          return None;
        }
        items := items + [x.value];
      }
      r := Some(VList(items));
    }
  }

  lemma {:induction false} FailsForGood(elem: Reading, m: nat, n: nat, pos: nat)
    requires m <= n && ReadMany(elem, m, pos) == None
    ensures ReadMany(elem, n, pos) == None
    decreases n
  {
    if m < n {
      FailsForGood(elem, m, n - 1, pos);
    }
  }

  lemma Behind(was: seq<byte>, now: seq<byte>, base: nat, start: nat, end: nat, more: seq<byte>, ok: bool)
    requires |was| == |now| && base <= start <= end <= |now| && now[..start] == was[..start]
    requires ok ==> now[..end] == was[..start] + more
    ensures now[..base] == was[..base]
    ensures ok ==> now[base..end] == was[base..start] + more
  {
    assert now[..base] == now[..start][..base] && was[..base] == was[..start][..base];
    assert now[base..end] == now[..end][base..] && was[base..start] == was[..start][base..];
    if ok {
      assert (was[..start] + more)[base..] == was[..start][base..] + more;
    }
  }

  lemma AddDigit(v: nat, unit: nat, d: nat, rest: nat)
    ensures v + unit * (d + 256 * rest) == (v + d * unit) + (unit * 256) * rest
  {
  }

  /** Element `i` leads from one prefix to the next, and no prefix is longer than the whole. */
  ghost predicate PrefixStep(lay: Layout, at: seq<seq<Prim>>, items: seq<Value>, i: nat)
    requires |at| == |items| + 1 && i < |items|
  {
    at[i + 1] == at[i] + Flat(items[i]) && |Laying(lay, at[i + 1])| <= |Laying(lay, at[|items|])|
  }

  /** What has been written before each element. */
  lemma Prefixes(lay: Layout, base: seq<Prim>, items: seq<Value>) returns (at: seq<seq<Prim>>)
    ensures |at| == |items| + 1 && at[0] == base && at[|items|] == base + FlatAll(items)
    ensures forall i :: 0 <= i < |items| ==> PrefixStep(lay, at, items, i)
  {
    var n := |items|;
    at := seq(n + 1, i requires 0 <= i <= n => base + FlatAll(items[..i]));
    assert items[..0] == [] && items[..n] == items && base + [] == base;
    forall i | 0 <= i < n
      ensures PrefixStep(lay, at, items, i)
    {
      NextItem(lay, base, items, i);
    }
  }

  /** One more element, and what is still to come does not shorten it. */
  lemma NextItem(lay: Layout, base: seq<Prim>, items: seq<Value>, i: nat)
    requires i < |items|
    ensures base + FlatAll(items[..i + 1]) == base + FlatAll(items[..i]) + Flat(items[i])
    ensures |Laying(lay, base + FlatAll(items[..i + 1]))| <= |Laying(lay, base + FlatAll(items))|
  {
    assert items[..i + 1][..i] == items[..i];
    FlatAllGrows(items, i + 1);
    var more := FlatAll(items)[|FlatAll(items[..i + 1])|..];
    assert base + FlatAll(items[..i + 1]) + more == base + FlatAll(items);
    LayingPrefix(lay, base + FlatAll(items[..i + 1]), more);
  }

  lemma {:induction false} FlatAllGrows(vs: seq<Value>, n: nat)
    requires n <= |vs|
    ensures |FlatAll(vs[..n])| <= |FlatAll(vs)| && FlatAll(vs)[..|FlatAll(vs[..n])|] == FlatAll(vs[..n])
    decreases |vs| - n
  {
    if n == |vs| {
      assert vs[..n] == vs;
    } else {
      FlatAllGrows(vs, n + 1);
      assert vs[..n + 1][..n] == vs[..n];
    }
  }
}
