/**
 * Reading and writing integers of partial width: Buffer::Instance's peekInt,
 * drainInt and writeInt, with the buffer as a sequence of bytes.
 *
 * `host` is the byte order of the machine that runs the code. Integers are
 * unbounded here, so the two's-complement pattern of a C++ integer of `width`
 * bytes is written out as a number below 256^width.
 */
module BufferCodec {
  import opened Options
  import opened Bytes

  datatype ByteOrder = LittleEndian | BigEndian

  /** A C++ integer type: sizeof(T) and std::is_signed. */
  datatype IntType = IntType(width: nat, signed: bool)

  /** The template arguments of one call: static_assert(Size <= sizeof(T)), and Size is not 0. */
  datatype Format = Format(ty: IntType, order: ByteOrder, size: nat) {
    predicate Valid() { 1 <= size <= ty.width < U64 }
  }

  const U64 := 0x1_0000_0000_0000_0000

  // ---------------------------------------------------------------------------
  // Memory, and the C++ operations on patterns

  /** The number that `bs` spells in an order: what a host of that order sees in memory. */
  function Unsigned(order: ByteOrder, bs: seq<byte>): nat {
    LeValue(if order.LittleEndian? then bs else Reversed(bs))
  }

  /** The `size` bytes that spell `v` in an order: what a host of that order puts into memory. */
  function Spelled(order: ByteOrder, v: int, size: nat): (bs: seq<byte>)
    ensures |bs| == size
  {
    if order.LittleEndian? then LeBytes(v, size) else Reversed(LeBytes(v, size))
  }

  function ByteSwap(v: nat, width: nat): nat {
    LeValue(Reversed(LeBytes(v, width)))
  }

  /** fromEndianness and toEndianness: swap unless the order is the host's. */
  function Converted(host: ByteOrder, order: ByteOrder, v: nat, width: nat): nat {
    if order == host then v else ByteSwap(v, width)
  }

  /** The value of type `ty` with this pattern. */
  function FromPattern(ty: IntType, pattern: nat): int {
    if ty.signed && 2 * pattern >= Pow256(ty.width) then pattern - Pow256(ty.width) else pattern
  }

  function ToPattern(ty: IntType, v: int): nat {
    Low(v, ty.width)
  }

  function Displacement(fmt: Format): nat
    requires fmt.Valid()
  {
    if fmt.order.BigEndian? then fmt.ty.width - fmt.size else 0
  }

  // ---------------------------------------------------------------------------
  // peekInt

  datatype Peeked =
    | Value(v: int)
    | Underflow   // the EnvoyException
    | PastTheEnd  // the check passed because start + Size wrapped; copyOut is then out of contract

  /**
   * The bits that extend the sign of `size` bytes to `width`: all ones, shifted and cut to the type.
   * The shift is by (Size % sizeof(T)) * CHAR_BIT, and here Size < sizeof(T).
   */
  function SignMask(size: nat, width: nat): nat
    requires size < width
  {
    Low(ShiftLeft(Pow256(width) - 1, 8 * size), width)
  }

  /** The converted pattern, with its sign extended if the most significant byte read is negative. */
  function Extended(ty: IntType, size: nat, pattern: nat, mostSignificantByte: byte): int {
    var signExtensionBits :=
      if ty.signed && size < ty.width && mostSignificantByte >= 128 then SignMask(size, ty.width) else 0;
    FromPattern(ty, BitOr(pattern, signExtensionBits))
  }

  /** The computation on the local `result` once `bs` has been copied out. */
  function Assemble(host: ByteOrder, fmt: Format, bs: seq<byte>): int
    requires fmt.Valid() && |bs| == fmt.size
  {
    var width := fmt.ty.width;
    var displacement := Displacement(fmt);
    var mem := Zeros(displacement) + bs + Zeros(width - fmt.size - displacement);
    var mostSignificantReadByte := if fmt.order.BigEndian? then displacement else fmt.size - 1;
    Extended(fmt.ty, fmt.size, Converted(host, fmt.order, Unsigned(host, mem), width), mem[mostSignificantReadByte])
  }

  /** uint64_t addition. */
  function WrappingSum(a: nat, b: nat): nat
    requires a < U64 && b < U64
  {
    if a + b < U64 then a + b else a + b - U64
  }

  function Peek(host: ByteOrder, data: seq<byte>, fmt: Format, start: nat): Peeked
    requires fmt.Valid() && start < U64
  {
    if |data| < WrappingSum(start, fmt.size) then Underflow
    else if |data| < start + fmt.size then PastTheEnd
    else Value(Assemble(host, fmt, data[start..start + fmt.size]))
  }

  /** The bytes that writeInt appends. */
  function Written(host: ByteOrder, fmt: Format, v: int): (bs: seq<byte>)
    requires fmt.Valid()
    ensures |bs| == fmt.size
  {
    var data := Spelled(host, Converted(host, fmt.order, ToPattern(fmt.ty, v), fmt.ty.width), fmt.ty.width);
    data[Displacement(fmt)..Displacement(fmt) + fmt.size]
  }

  // ---------------------------------------------------------------------------
  // What they mean

  /** What `bs` spells, read as two's complement of exactly |bs| bytes when `signed`. */
  function Meaning(signed: bool, order: ByteOrder, bs: seq<byte>): int {
    var u := Unsigned(order, bs);
    if signed && 2 * u >= Pow256(|bs|) then u - Pow256(|bs|) else u
  }

  /** Whether `v` can be written in `size` bytes. */
  predicate Fits(signed: bool, size: nat, v: int) {
    if signed then 0 - Pow256(size) <= 2 * v < Pow256(size) else 0 <= v < Pow256(size)
  }

  /** Loading and converting read the memory in the requested order, on any host. */
  lemma ConvertedLoad(host: ByteOrder, order: ByteOrder, mem: seq<byte>)
    ensures Converted(host, order, Unsigned(host, mem), |mem|) == Unsigned(order, mem)
  {
    var le := if host.LittleEndian? then mem else Reversed(mem);
    LeBytesOfValue(le);
    assert Reversed(Reversed(mem)) == mem;
  }

  /** Converting and storing lay the pattern out in the requested order, on any host. */
  lemma StoredConverted(host: ByteOrder, order: ByteOrder, v: nat, width: nat)
    ensures Spelled(host, Converted(host, order, v, width), width) == Spelled(order, v, width)
  {
    LeBytesOfValue(Reversed(LeBytes(v, width)));
    assert Reversed(Reversed(LeBytes(v, width))) == LeBytes(v, width);
  }

  /** The zero bytes around the copied ones do not count. */
  lemma PaddingDoesNotCount(fmt: Format, bs: seq<byte>)
    requires fmt.Valid() && |bs| == fmt.size
    ensures var d := Displacement(fmt);
            Unsigned(fmt.order, Zeros(d) + bs + Zeros(fmt.ty.width - fmt.size - d)) == Unsigned(fmt.order, bs)
  {
    var d := Displacement(fmt);
    var pad := fmt.ty.width - fmt.size;
    if fmt.order.LittleEndian? {
      LeValuePadded(bs, pad);
      assert Zeros(0) + bs + Zeros(pad) == bs + Zeros(pad);
    } else {
      LeValuePadded(Reversed(bs), pad);
      assert Reversed(Zeros(pad) + bs + Zeros(0)) == Reversed(bs) + Zeros(pad);
    }
  }

  /** The sign extension done by "or" turns the pattern of `size` bytes into that of `width`. */
  lemma SignExtension(u: nat, size: nat, width: nat)
    requires size < width && u < Pow256(size)
    ensures BitOr(u, SignMask(size, width)) == u + Pow256(width) - Pow256(size)
  {
    LowOfShiftedOnes(width, size, width);
    OnesAreLowClear(size, width);
    HighClearBelow(u, size);
    BitOrDisjoint(u, Pow256(width) - Pow256(size), 8 * size);
  }

  lemma {:induction false} OrNothing(u: nat)
    ensures BitOr(u, 0) == u
  {
    if u > 0 {
      OrNothing(u / 2);
    }
  }

  /** Reinterpreting the extended pattern gives the two's-complement value of `size` bytes. */
  lemma ExtendedPattern(ty: IntType, size: nat, u: nat, top: byte)
    requires size <= ty.width && u < Pow256(size)
    requires top >= 128 <==> 2 * u >= Pow256(size)
    ensures Extended(ty, size, u, top) == if ty.signed && 2 * u >= Pow256(size) then u - Pow256(size) else u
  {
    Pow256Monotone(size, ty.width);
    if ty.signed && size < ty.width && top >= 128 {
      SignExtension(u, size, ty.width);
    } else {
      OrNothing(u);
    }
  }

  /** The most significant byte of `bs` in an order. */
  function Top(order: ByteOrder, bs: seq<byte>): byte
    requires bs != []
  {
    if order.BigEndian? then bs[0] else bs[|bs| - 1]
  }

  lemma TopIsSign(order: ByteOrder, bs: seq<byte>)
    requires bs != []
    ensures Top(order, bs) >= 128 <==> 2 * Unsigned(order, bs) >= Pow256(|bs|)
  {
    TopBit(if order.LittleEndian? then bs else Reversed(bs));
  }

  /** Neither the host nor the padding matters, and the byte tested is the most significant one read. */
  lemma AssembleParts(host: ByteOrder, fmt: Format, bs: seq<byte>)
    requires fmt.Valid() && |bs| == fmt.size
    ensures Assemble(host, fmt, bs) == Extended(fmt.ty, fmt.size, Unsigned(fmt.order, bs), Top(fmt.order, bs))
  {
    var d := Displacement(fmt);
    ConvertedLoad(host, fmt.order, Zeros(d) + bs + Zeros(fmt.ty.width - fmt.size - d));
    PaddingDoesNotCount(fmt, bs);
  }

  /**
   * For every width, byte order, signedness, host and content: the displaced
   * copy, the swap and the mask compute the number that the bytes spell.
   */
  lemma AssembleIsMeaning(host: ByteOrder, fmt: Format, bs: seq<byte>)
    requires fmt.Valid() && |bs| == fmt.size
    ensures Assemble(host, fmt, bs) == Meaning(fmt.ty.signed, fmt.order, bs)
  {
    AssembleParts(host, fmt, bs);
    TopIsSign(fmt.order, bs);
    LeValueBound(if fmt.order.LittleEndian? then bs else Reversed(bs));
    ExtendedPattern(fmt.ty, fmt.size, Unsigned(fmt.order, bs), Top(fmt.order, bs));
  }

  lemma UnsignedSpelled(order: ByteOrder, v: int, size: nat)
    ensures Unsigned(order, Spelled(order, v, size)) == Low(v, size)
  {
    LeValueOfBytes(v, size);
    assert Reversed(Reversed(LeBytes(v, size))) == LeBytes(v, size);
  }

  lemma SpelledUnsigned(order: ByteOrder, bs: seq<byte>)
    ensures Spelled(order, Unsigned(order, bs), |bs|) == bs
  {
    LeBytesOfValue(if order.LittleEndian? then bs else Reversed(bs));
    assert Reversed(Reversed(bs)) == bs;
  }

  lemma SpelledLow(order: ByteOrder, v: int, size: nat)
    ensures Spelled(order, Low(v, size), size) == Spelled(order, v, size)
  {
    LeBytesOfLow(v, size, size);
  }

  /** The displaced slice of a spelling keeps the low bytes. */
  lemma SpelledSlice(fmt: Format, v: int)
    requires fmt.Valid()
    ensures var d := Displacement(fmt);
            Spelled(fmt.order, v, fmt.ty.width)[d..d + fmt.size] == Spelled(fmt.order, v, fmt.size)
  {
    LeBytesPrefix(v, fmt.ty.width, fmt.size);
    var all := LeBytes(v, fmt.ty.width);
    var d := fmt.ty.width - fmt.size;
    assert Reversed(all)[d..d + fmt.size] == Reversed(all[..fmt.size]);
  }

  /** The appended bytes spell the low Size bytes of the value, in the requested order, on any host. */
  lemma WrittenSpells(host: ByteOrder, fmt: Format, v: int)
    requires fmt.Valid()
    ensures Written(host, fmt, v) == Spelled(fmt.order, v, fmt.size)
    ensures Unsigned(fmt.order, Written(host, fmt, v)) == Low(v, fmt.size)
  {
    assert Written(host, fmt, v) == Spelled(fmt.order, v, fmt.size) by {
      var pattern := ToPattern(fmt.ty, v);
      StoredConverted(host, fmt.order, pattern, fmt.ty.width);
      SpelledSlice(fmt, pattern);
      LeBytesOfLow(v, fmt.ty.width, fmt.size);
    }
    UnsignedSpelled(fmt.order, v, fmt.size);
  }

  /** Positional notation: the byte written last is the least significant in big-endian order, the first one else. */
  lemma Positional(b: byte, bs: seq<byte>)
    ensures Unsigned(BigEndian, []) == 0 && Unsigned(LittleEndian, []) == 0
    ensures Unsigned(BigEndian, bs + [b]) == 256 * Unsigned(BigEndian, bs) + b
    ensures Unsigned(LittleEndian, [b] + bs) == 256 * Unsigned(LittleEndian, bs) + b
  {
    assert Reversed(bs + [b]) == [b] + Reversed(bs);
    assert ([b] + Reversed(bs))[1..] == Reversed(bs);
    assert ([b] + bs)[1..] == bs;
    var none: seq<byte> := [];
    assert Reversed(none) == [];
  }

  // ---------------------------------------------------------------------------
  // Round trips

  /** Numbers that agree in their low bytes and both fit the same width are equal. */
  lemma FitsUnique(signed: bool, size: nat, a: int, b: int)
    requires Fits(signed, size, a) && Fits(signed, size, b)
    requires Low(a, size) == Low(b, size)
    ensures a == b
  {
    LowDetermines(a, b, size);
  }

  lemma SignedFits(signed: bool, n: nat, u: nat, m: int)
    requires u < Pow256(n) && m == if signed && 2 * u >= Pow256(n) then u - Pow256(n) else u
    ensures Fits(signed, n, m) && Low(m, n) == u
  {
    LowOfSmall(u, n);
    LowMinusPow(u, n);
  }

  /** What bytes mean fits their number, and its low bytes are what they spell. */
  lemma MeaningFits(signed: bool, order: ByteOrder, bs: seq<byte>)
    ensures Fits(signed, |bs|, Meaning(signed, order, bs))
    ensures Low(Meaning(signed, order, bs), |bs|) == Unsigned(order, bs)
  {
    LeValueBound(if order.LittleEndian? then bs else Reversed(bs));
    SignedFits(signed, |bs|, Unsigned(order, bs), Meaning(signed, order, bs));
  }

  /** Writing on one host and reading on another gives the value if it fits, else one with the same low bytes. */
  lemma ReadBackWritten(writer: ByteOrder, reader: ByteOrder, fmt: Format, v: int)
    requires fmt.Valid()
    ensures var r := Assemble(reader, fmt, Written(writer, fmt, v));
            && Fits(fmt.ty.signed, fmt.size, r)
            && Low(r, fmt.size) == Low(v, fmt.size)
            && (r == v <==> Fits(fmt.ty.signed, fmt.size, v))
  {
    var bs := Written(writer, fmt, v);
    AssembleIsMeaning(reader, fmt, bs);
    WrittenSpells(writer, fmt, v);
    MeaningFits(fmt.ty.signed, fmt.order, bs);
    if Fits(fmt.ty.signed, fmt.size, v) {
      FitsUnique(fmt.ty.signed, fmt.size, v, Meaning(fmt.ty.signed, fmt.order, bs));
    }
  }

  /** Reading bytes and writing the result in the same format gives the same bytes. */
  lemma WriteBackRead(reader: ByteOrder, writer: ByteOrder, fmt: Format, bs: seq<byte>)
    requires fmt.Valid() && |bs| == fmt.size
    ensures Written(writer, fmt, Assemble(reader, fmt, bs)) == bs
  {
    AssembleIsMeaning(reader, fmt, bs);
    WrittenSpells(writer, fmt, Meaning(fmt.ty.signed, fmt.order, bs));
    MeaningFits(fmt.ty.signed, fmt.order, bs);
    SpelledUnsigned(fmt.order, bs);
    SpelledLow(fmt.order, Meaning(fmt.ty.signed, fmt.order, bs), fmt.size);
  }

  /** A value to be written, and how. */
  datatype Item = Item(fmt: Format, v: int)

  ghost predicate ValidItems(items: seq<Item>) {
    forall i :: 0 <= i < |items| ==> items[i].fmt.Valid()
  }

  function WrittenAll(host: ByteOrder, items: seq<Item>): seq<byte>
    requires ValidItems(items)
  {
    if items == [] then [] else Written(host, items[0].fmt, items[0].v) + WrittenAll(host, items[1..])
  }

  /** Draining one integer after the other in the items' formats; None if one throws. */
  function DrainedAll(host: ByteOrder, data: seq<byte>, items: seq<Item>): Option<(seq<int>, seq<byte>)>
    requires ValidItems(items)
    decreases items
  {
    if items == [] then Some(([], data)) else
    var first := Peek(host, data, items[0].fmt, 0);
    if !first.Value? then None else
    var rest := DrainedAll(host, data[items[0].fmt.size..], items[1..]);
    if rest.None? then None else Some(([first.v] + rest.value.0, rest.value.1))
  }

  lemma PeekFront(host: ByteOrder, fmt: Format, head: seq<byte>, rest: seq<byte>)
    requires fmt.Valid() && |head| == fmt.size
    ensures Peek(host, head + rest, fmt, 0) == Value(Assemble(host, fmt, head))
    ensures (head + rest)[fmt.size..] == rest
  {
    assert (head + rest)[0..0 + fmt.size] == head;
  }

  /** `r` is what reading back `item` must give: the same low bytes, and equal exactly if the value fits. */
  ghost predicate ReadsBack(item: Item, r: int) {
    && Low(r, item.fmt.size) == Low(item.v, item.fmt.size)
    && (r == item.v <==> Fits(item.fmt.ty.signed, item.fmt.size, item.v))
  }

  /** Draining gave back every item, and left exactly `rest`. */
  ghost predicate RoundTripped(items: seq<Item>, drained: Option<(seq<int>, seq<byte>)>, rest: seq<byte>) {
    && drained.Some? && |drained.value.0| == |items| && drained.value.1 == rest
    && forall i :: 0 <= i < |items| ==> ReadsBack(items[i], drained.value.0[i])
  }

  lemma RoundTrippedCons(items: seq<Item>, first: int, drained: Option<(seq<int>, seq<byte>)>, rest: seq<byte>)
    requires items != [] && ReadsBack(items[0], first) && RoundTripped(items[1..], drained, rest)
    ensures RoundTripped(items, Some(([first] + drained.value.0, drained.value.1)), rest)
  {
    var all := [first] + drained.value.0;
    forall i | 0 <= i < |items| ensures ReadsBack(items[i], all[i]) {
      if i > 0 { assert ReadsBack(items[1..][i - 1], drained.value.0[i - 1]); }
    }
  }

  lemma DrainFirst(host: ByteOrder, items: seq<Item>, head: seq<byte>, data: seq<byte>)
    requires ValidItems(items) && items != [] && |head| == items[0].fmt.size
    requires DrainedAll(host, data, items[1..]).Some?
    ensures var rest := DrainedAll(host, data, items[1..]).value;
            DrainedAll(host, head + data, items) == Some(([Assemble(host, items[0].fmt, head)] + rest.0, rest.1))
  {
    PeekFront(host, items[0].fmt, head, data);
  }

  lemma NothingRoundTrips(writer: ByteOrder, reader: ByteOrder, items: seq<Item>, rest: seq<byte>)
    requires items == []
    ensures RoundTripped(items, DrainedAll(reader, WrittenAll(writer, items) + rest, items), rest)
  {
    assert WrittenAll(writer, items) + rest == rest;
  }

  /**
   * Any list of values written and drained in the same formats comes back with
   * nothing left over: item by item equal in the low Size bytes, and equal
   * exactly where the value fits its width.
   */
  lemma {:induction false} ListRoundTrip(writer: ByteOrder, reader: ByteOrder, items: seq<Item>, rest: seq<byte>)
    requires ValidItems(items)
    ensures RoundTripped(items, DrainedAll(reader, WrittenAll(writer, items) + rest, items), rest)
    decreases items
  {
    if items == [] {
      NothingRoundTrips(writer, reader, items, rest);
    } else {
      var head, data := Written(writer, items[0].fmt, items[0].v), WrittenAll(writer, items[1..]) + rest;
      assert WrittenAll(writer, items) + rest == head + data;
      ListRoundTrip(writer, reader, items[1..], rest);
      DrainFirst(reader, items, head, data);
      ReadBackWritten(writer, reader, items[0].fmt, items[0].v);
      RoundTrippedCons(items, Assemble(reader, items[0].fmt, head), DrainedAll(reader, data, items[1..]), rest);
    }
  }

  /** The underflow check is exact as long as start + Size does not wrap around 64 bits. */
  lemma UnderflowIsExact(host: ByteOrder, data: seq<byte>, fmt: Format, start: nat)
    requires fmt.Valid() && |data| < U64 && start < U64
    ensures start + fmt.size < U64 ==>
              Peek(host, data, fmt, start) ==
              if |data| < start + fmt.size then Underflow
              else Value(Meaning(fmt.ty.signed, fmt.order, data[start..start + fmt.size]))
    ensures start + fmt.size >= U64 ==>
              Peek(host, data, fmt, start) == if |data| < start + fmt.size - U64 then Underflow else PastTheEnd
  {
    if start + fmt.size <= |data| {
      PeekInside(host, data, fmt, start);
    }
  }

  lemma PeekInside(host: ByteOrder, data: seq<byte>, fmt: Format, start: nat)
    requires fmt.Valid() && start + fmt.size <= |data| < U64
    ensures Peek(host, data, fmt, start) == Value(Meaning(fmt.ty.signed, fmt.order, data[start..start + fmt.size]))
  {
    var bs := data[start..start + fmt.size];
    assert Peek(host, data, fmt, start) == Value(Assemble(host, fmt, bs));
    AssembleIsMeaning(host, fmt, bs);
  }

  // ---------------------------------------------------------------------------
  // The code

  class Buffer {
    const host: ByteOrder
    var data: seq<byte>

    constructor (host: ByteOrder)
      ensures this.host == host && data == []
    {
      this.host, data := host, [];
    }

    method Add(bs: seq<byte>)
      modifies this
      ensures data == old(data) + bs
    {
      data := data + bs;
    }

    method Drain(size: nat)
      requires size <= |data|
      modifies this
      ensures data == old(data)[size..]
    {
      data := data[size..];
    }

    method PeekInt(fmt: Format, start: nat) returns (result: Peeked)
      requires fmt.Valid() && start < U64 && |data| < U64
      ensures result.Value? <==> start + fmt.size <= |data|
      ensures result.Value? ==> result.v == Meaning(fmt.ty.signed, fmt.order, data[start..start + fmt.size])
      ensures result.PastTheEnd? <==> U64 <= start + fmt.size <= U64 + |data|
    {
      result := Peek(host, data, fmt, start);
      UnderflowIsExact(host, data, fmt, start);
    }

    method DrainInt(fmt: Format) returns (result: Peeked)
      requires fmt.Valid() && |data| < U64
      modifies this
      ensures result.Value? <==> fmt.size <= |old(data)|
      ensures result.Value? ==>
                && result.v == Meaning(fmt.ty.signed, fmt.order, old(data)[..fmt.size])
                && data == old(data)[fmt.size..]
      ensures !result.Value? ==> result == Underflow && data == old(data)
    {
      result := PeekInt(fmt, 0);
      if result.Value? {
        Drain(fmt.size);
      }
    }

    method WriteInt(fmt: Format, v: int)
      requires fmt.Valid()
      modifies this
      ensures |data| == |old(data)| + fmt.size && data[..|old(data)|] == old(data)
      ensures Unsigned(fmt.order, data[|old(data)|..]) == Low(v, fmt.size)
    {
      Add(Written(host, fmt, v));
      WrittenSpells(host, fmt, v);
      assert data[|old(data)|..] == Written(host, fmt, v);
    }
  }
}
