/** Everything written to a stream reads back, whatever groups of bits stand next to whatever bytes. */
module BinaryItems {
  import opened BitStreams
  import opened BinaryStreams

  datatype Field = Field(value: nat, width: nat)

  datatype Item =
    | Bits(fields: seq<Field>)
    | UInt64(number: nat)
    | StringEven(text: seq<Byte>)
    | String32(text: seq<Byte>)

  /** What the reader has to know in advance: the kind of an item and the widths of its fields. */
  datatype Form = BitsForm(widths: seq<nat>) | UInt64Form | StringEvenForm | String32Form

  function Widths(fields: seq<Field>): (r: seq<nat>)
    ensures |r| == |fields|
    ensures forall i :: 0 <= i < |r| ==> r[i] == fields[i].width
  {
    seq(|fields|, i requires 0 <= i < |fields| => fields[i].width)
  }

  function FormOf(item: Item): Form {
    match item
    case Bits(fields) => BitsForm(Widths(fields))
    case UInt64(_) => UInt64Form
    case StringEven(_) => StringEvenForm
    case String32(_) => String32Form
  }

  /** The argument types of the writing methods, and strings short enough for a signed 32-bit length. */
  predicate Legal(item: Item) {
    match item
    case Bits(fields) => forall f :: f in fields ==> f.width <= 32 && f.value < 0x1_0000_0000
    case UInt64(u) => u < 0x1_0000_0000_0000_0000
    case StringEven(s) => IsText(s)
    case String32(s) => IsText(s) && |s| + 1 < MAX_INT32
  }

  function GroupBits(fields: seq<Field>): seq<bool>
    decreases |fields|
  {
    if fields == [] then [] else FieldBits(fields[0].value, fields[0].width) + GroupBits(fields[1..])
  }

  function Encode(item: Item, swap: bool): seq<Byte> {
    match item
    case Bits(fields) => Pack(GroupBits(fields))
    case UInt64(u) => Ordered(u, 8, swap)
    case StringEven(s) => EvenBytes(s)
    case String32(s) => CountedBytes(s, swap)
  }

  function EncodeAll(items: seq<Item>, swap: bool): seq<Byte>
    decreases |items|
  {
    if items == [] then [] else Encode(items[0], swap) + EncodeAll(items[1..], swap)
  }

  /** What comes back: every field cut to its width. */
  function Cut(item: Item): Item {
    if item.Bits? then
      Bits(seq(|item.fields|, i requires 0 <= i < |item.fields| =>
        Field(item.fields[i].value % Pow2(item.fields[i].width), item.fields[i].width)))
    else item
  }

  function CutAll(items: seq<Item>): seq<Item> {
    seq(|items|, i requires 0 <= i < |items| => Cut(items[i]))
  }

  predicate TakesNoByte(item: Item) {
    item.Bits? && GroupBits(item.fields) == []
  }

  /** A group without any bit can be read only where a byte follows: the reader looks at one. */
  predicate Readable(items: seq<Item>, rest: seq<Byte>, swap: bool)
    decreases |items|
  {
    items == []
    || ((TakesNoByte(items[0]) ==> EncodeAll(items[1..], swap) + rest != [])
        && Readable(items[1..], rest, swap))
  }

  // ----- Writing -----

  method WriteItem(out: BinaryOutput, item: Item)
    requires out.Valid() && !out.inBits
    modifies out
    ensures out.Valid() && !out.inBits && out.swapBytes == old(out.swapBytes)
    ensures out.buffer == old(out.buffer) + Encode(item, out.swapBytes)
  {
    match item
    case Bits(fields) =>
      out.BeginBits();
      WriteFields(out, fields);
      assert [] + GroupBits(fields) == GroupBits(fields);
      out.EndBits();
    case UInt64(u) => out.WriteUInt64(u);
    case StringEven(s) => out.WriteStringEven(s);
    case String32(s) => out.WriteString32(s);
  }

  method WriteFields(out: BinaryOutput, fields: seq<Field>)
    requires out.Valid() && out.inBits
    modifies out
    ensures out.Valid() && out.inBits && out.base == old(out.base) && out.swapBytes == old(out.swapBytes)
    ensures out.full + out.part == old(out.full + out.part) + GroupBits(fields)
  {
    var k := 0;
    assert fields[0..] == fields;
    while k < |fields|
      invariant 0 <= k <= |fields| && out.Valid() && out.inBits
      invariant out.base == old(out.base) && out.swapBytes == old(out.swapBytes)
      invariant out.full + out.part + GroupBits(fields[k..]) == old(out.full + out.part) + GroupBits(fields)
    {
      assert fields[k..][0] == fields[k] && fields[k..][1..] == fields[k + 1..];
      ghost var before := out.full + out.part;
      out.WriteBits(fields[k].value, fields[k].width);
      assert before + (FieldBits(fields[k].value, fields[k].width) + GroupBits(fields[k + 1..]))
        == out.full + out.part + GroupBits(fields[k + 1..]);
      k := k + 1;
    }
  }

  lemma EncodeStep(before: seq<Byte>, items: seq<Item>, k: nat, swap: bool)
    requires k < |items|
    ensures before + EncodeAll(items[k..], swap)
      == before + Encode(items[k], swap) + EncodeAll(items[k + 1..], swap)
  {
    assert items[k..][0] == items[k] && items[k..][1..] == items[k + 1..];
  }

  method WriteAll(out: BinaryOutput, items: seq<Item>)
    requires out.Valid() && !out.inBits
    modifies out
    ensures out.Valid() && !out.inBits && out.swapBytes == old(out.swapBytes)
    ensures out.buffer == old(out.buffer) + EncodeAll(items, out.swapBytes)
  {
    hide Encode;
    var k := 0;
    assert items[0..] == items;
    while k < |items|
      invariant 0 <= k <= |items| && out.Valid() && !out.inBits && out.swapBytes == old(out.swapBytes)
      invariant out.buffer + EncodeAll(items[k..], out.swapBytes)
        == old(out.buffer) + EncodeAll(items, out.swapBytes)
    {
      EncodeStep(out.buffer, items, k, out.swapBytes);
      WriteItem(out, items[k]);
      k := k + 1;
    }
  }

  // ----- Reading -----

  lemma GroupStep(fields: seq<Field>, k: nat, more: seq<bool>)
    requires k < |fields|
    ensures GroupBits(fields[k..]) + more
      == FieldBits(fields[k].value, fields[k].width) + (GroupBits(fields[k + 1..]) + more)
    ensures |GroupBits(fields[k..])| == fields[k].width + |GroupBits(fields[k + 1..])|
  {
    assert fields[k..][0] == fields[k] && fields[k..][1..] == fields[k + 1..];
  }

  method ReadFields(inp: BinaryInput, widths: seq<nat>, ghost fields: seq<Field>, ghost more: seq<bool>)
    returns (r: seq<Field>)
    requires inp.Valid() && inp.inBits && inp.Unread() == GroupBits(fields) + more && widths == Widths(fields)
    modifies inp
    ensures inp.Valid() && inp.inBits && inp.start == old(inp.start)
    ensures inp.Read() == old(inp.Read()) + |GroupBits(fields)|
    ensures r == Cut(Bits(fields)).fields
  {
    hide FieldBits, Unpack, Pow2;
    r := [];
    var k := 0;
    assert fields[0..] == fields;
    while k < |widths|
      invariant 0 <= k <= |widths| && inp.Valid() && inp.inBits && inp.start == old(inp.start)
      invariant inp.Unread() == GroupBits(fields[k..]) + more
      invariant inp.Read() + |GroupBits(fields[k..])| == old(inp.Read()) + |GroupBits(fields)|
      invariant r == Cut(Bits(fields)).fields[..k]
    {
      GroupStep(fields, k, more);
      var v := ReadField(inp, widths[k], fields[k], GroupBits(fields[k + 1..]) + more);
      r := r + [Field(v, widths[k])];
      k := k + 1;
    }
  }

  method ReadField(inp: BinaryInput, width: nat, ghost field: Field, ghost more: seq<bool>) returns (v: nat)
    requires inp.Valid() && inp.inBits && inp.Unread() == FieldBits(field.value, field.width) + more
    requires width == field.width
    modifies inp
    ensures inp.Valid() && inp.inBits && inp.start == old(inp.start) && inp.Unread() == more
    ensures inp.Read() == old(inp.Read()) + width && v == field.value % Pow2(width)
  {
    hide FieldBits, Unpack;
    FieldRoundTrip(field.value, field.width);
    v := inp.ReadBits(width);
  }

  /** The bits of a group come first in what is read from its bytes. */
  lemma GroupComesFirst(bits: seq<bool>, rest: seq<Byte>) returns (more: seq<bool>)
    ensures Unpack(Pack(bits) + rest) == bits + more
  {
    hide Pack, Unpack;
    PackRoundTrip(bits);
    UnpackConcat(Pack(bits), rest);
    var all := Unpack(Pack(bits));
    more := all[|bits|..] + Unpack(rest);
    assert all == bits + all[|bits|..];
  }

  method ReadGroup(inp: BinaryInput, widths: seq<nat>, ghost fields: seq<Field>, ghost rest: seq<Byte>)
    returns (ok: bool, r: seq<Field>)
    requires inp.Valid() && !inp.inBits && widths == Widths(fields)
    requires inp.buffer[inp.pos..] == Pack(GroupBits(fields)) + rest
    modifies inp
    ensures ok <==> GroupBits(fields) != [] || rest != []
    ensures ok ==> inp.Valid() && !inp.inBits && inp.buffer[inp.pos..] == rest && r == Cut(Bits(fields)).fields
  {
    hide FieldBits, Unpack, Pack, GroupBits, Cut;
    ghost var bits := GroupBits(fields);
    PackSize(bits);
    ghost var more := GroupComesFirst(bits, rest);
    ReadPrefix(inp.buffer, inp.pos, Pack(bits), rest);
    r := [];
    ok := inp.BeginBits();
    if !ok {
      return;
    }
    r := ReadFields(inp, widths, fields, more);
    inp.EndBits();
  }

  /** What an item is read as, and the position after it; false where a group without any bit ends the stream. */
  method ReadItem(inp: BinaryInput, form: Form, ghost item: Item, ghost rest: seq<Byte>) returns (ok: bool, r: Item)
    requires inp.Valid() && !inp.inBits && form == FormOf(item) && Legal(item)
    requires inp.buffer[inp.pos..] == Encode(item, inp.swapBytes) + rest
    modifies inp
    ensures ok <==> (TakesNoByte(item) ==> rest != [])
    ensures ok ==> inp.Valid() && !inp.inBits && inp.buffer[inp.pos..] == rest && r == Cut(item)
  {
    hide Pack, GroupBits, BytesValue, LowBytes, Reverse, Pow2, UpToZero, EvenBytes, CountedBytes;
    ok := true;
    match form
    case BitsForm(widths) =>
      var fields;
      ok, fields := ReadGroup(inp, widths, item.fields, rest);
      r := Bits(fields);
    case UInt64Form =>
      ReadPrefix(inp.buffer, inp.pos, Encode(item, inp.swapBytes), rest);
      NumberRoundTrip(item.number, 8, inp.swapBytes);
      var u := inp.ReadUInt64();
      r := UInt64(u);
    case StringEvenForm =>
      EvenReadsBack(inp.buffer, inp.pos, item.text, rest);
      var s;
      ok, s := inp.ReadStringEven();
      r := StringEven(s);
    case String32Form =>
      CountedReadsBack(inp.buffer, inp.pos, item.text, rest, inp.swapBytes);
      var s;
      ok, s := inp.ReadString32();
      r := String32(s);
  }

  lemma ReadableStep(items: seq<Item>, k: nat, rest: seq<Byte>, swap: bool)
    requires k < |items|
    ensures Readable(items[k..], rest, swap) <==>
      && (TakesNoByte(items[k]) ==> EncodeAll(items[k + 1..], swap) + rest != [])
      && Readable(items[k + 1..], rest, swap)
    ensures EncodeAll(items[k..], swap) + rest == Encode(items[k], swap) + (EncodeAll(items[k + 1..], swap) + rest)
  {
    assert items[k..][0] == items[k] && items[k..][1..] == items[k + 1..];
  }

  /** A whole stream read item by item, given only its form. */
  method ReadAll(inp: BinaryInput, forms: seq<Form>, ghost items: seq<Item>, ghost rest: seq<Byte>)
    returns (ok: bool, r: seq<Item>)
    requires inp.Valid() && !inp.inBits && |forms| == |items|
    requires forall i :: 0 <= i < |items| ==> forms[i] == FormOf(items[i]) && Legal(items[i])
    requires inp.buffer[inp.pos..] == EncodeAll(items, inp.swapBytes) + rest
    modifies inp
    ensures ok <==> Readable(items, rest, inp.swapBytes)
    ensures ok ==> inp.Valid() && !inp.inBits && inp.buffer[inp.pos..] == rest && r == CutAll(items)
  {
    hide Encode, FormOf, Legal, Cut, Readable, EncodeAll;
    ok, r := true, [];
    var k := 0;
    assert items[0..] == items;
    while k < |forms|
      invariant 0 <= k <= |forms| && ok && inp.Valid() && !inp.inBits
      invariant inp.buffer[inp.pos..] == EncodeAll(items[k..], inp.swapBytes) + rest
      invariant Readable(items[k..], rest, inp.swapBytes) <==> Readable(items, rest, inp.swapBytes)
      invariant r == CutAll(items)[..k]
    {
      ReadableStep(items, k, rest, inp.swapBytes);
      var item;
      ok, item := ReadItem(inp, forms[k], items[k], EncodeAll(items[k + 1..], inp.swapBytes) + rest);
      if !ok {
        return;
      }
      r := r + [item];
      k := k + 1;
    }
    NothingIsReadable(items[k..], rest, inp.swapBytes);
  }

  lemma NothingIsReadable(items: seq<Item>, rest: seq<Byte>, swap: bool)
    requires items == []
    ensures Readable(items, rest, swap) && EncodeAll(items, swap) + rest == rest
  {
  }

  predicate EndsWithoutByte(items: seq<Item>) {
    items != [] && TakesNoByte(items[|items| - 1])
  }

  /** What cannot be read back is a group of no bits that nothing follows, and nothing else. */
  lemma {:induction false} ReadableIff(items: seq<Item>, swap: bool)
    ensures Readable(items, [], swap) <==> !EndsWithoutByte(items)
    decreases |items|
  {
    if items != [] {
      ReadableIff(items[1..], swap);
      BytesTaken(items[1..], swap);
      assert EncodeAll(items[1..], swap) + [] == EncodeAll(items[1..], swap);
      if |items| > 1 {
        assert items[1..][|items| - 2] == items[|items| - 1];
      }
    }
  }

  lemma {:induction false} BytesTaken(items: seq<Item>, swap: bool)
    ensures EncodeAll(items, swap) == [] <==> forall i :: 0 <= i < |items| ==> TakesNoByte(items[i])
    decreases |items|
  {
    if items != [] {
      BytesTaken(items[1..], swap);
      ItemTakesByte(items[0], swap);
      assert forall i :: 0 < i < |items| ==> items[i] == items[1..][i - 1];
    }
  }

  lemma ItemTakesByte(item: Item, swap: bool)
    ensures Encode(item, swap) == [] <==> TakesNoByte(item)
  {
    if item.Bits? {
      PackSize(GroupBits(item.fields));
    }
  }

  /** Any list of items written to a stream reads back, in either byte order, with every field cut to its
      width and nothing left over, exactly when it does not end in a group without any bit. */
  method RoundTrip(items: seq<Item>, swap: bool) returns (ok: bool, r: seq<Item>)
    requires forall i :: 0 <= i < |items| ==> Legal(items[i])
    ensures ok <==> !EndsWithoutByte(items)
    ensures ok ==> r == CutAll(items)
  {
    var out := new BinaryOutput(swap);
    WriteAll(out, items);
    var inp := new BinaryInput(out.buffer, swap);
    assert inp.buffer[0..] == EncodeAll(items, swap) + [];
    ReadableIff(items, swap);
    ok, r := ReadAll(inp, seq(|items|, i requires 0 <= i < |items| => FormOf(items[i])), items, []);
  }
}
