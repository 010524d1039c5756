/** The directory writer: exif_ifd_size, exif_write_value and exif_write_ifd.

    A directory is written at an absolute position `pos` of the TIFF blob:
    the 16-bit entry count, twelve bytes per entry, the 32-bit next pointer,
    then every payload longer than four bytes, each padded to an even
    position. The offsets handed to those payloads are assigned while the
    entries are written, starting just after the next pointer.
 */
module Writer {
  import opened Outcomes
  import opened Bytes
  import opened FieldTypes
  import opened Directory

  /** `x` rounded up to an even number. */
  function RoundEven(x: nat): (r: nat)
    ensures r % 2 == 0 && x <= r <= x + 1
  {
    if x % 2 == 1 then x + 1 else x
  }

  /** The sum of the padded lengths of the out-of-line payloads. */
  function PayloadTotal(tags: seq<Tag>): nat
    decreases |tags|
  {
    if |tags| == 0 then 0
    else (if tags[0].size > 4 then RoundEven(tags[0].size) else 0) + PayloadTotal(tags[1..])
  }

  /** exif_ifd_size: the bytes a directory occupies, count and next pointer
      included, computed in 32 bits from the explicit entry count. */
  function IfdSize(d: Ifd): (n: nat)
    ensures n < TWO32
  {
    (6 + 12 * d.count + PayloadTotal(d.tags)) % TWO32
  }

  /** The shape the payload loop needs of a tag: an inline value has its
      four bytes; an out-of-line payload has a known type, a size of
      exactly count elements, the bytes to copy, and (unless copied raw)
      fewer than 2^16 elements, the limit of the source's element counter. */
  predicate Shaped(t: Tag) {
    && (t.size <= 4 ==> |t.data| >= 4)
    && (t.size > 4 ==>
          && TypeSize(t.typ).Some?
          && t.size == SizeOf(t.typ, t.count)
          && |t.data| >= t.size
          && (!IsByteType(t.typ) ==> t.count < TWO16))
  }

  /** A tag the writer emits in full: shaped, and an out-of-line payload is
      of a type up to IFD (13), the types the loop copies raw or converts
      (ConvertedTypes). The others lose their payload as the loop is
      written (PayloadBytesAsWritten). */
  predicate Writable(t: Tag) {
    && Shaped(t)
    && (t.size > 4 ==> t.typ <= IFD)
  }

  /** The known types the payload loop copies raw or converts are exactly
      the codes up to IFD. */
  lemma ConvertedTypes(typ: nat)
    requires TypeSize(typ).Some?
    ensures IsByteType(typ) || HasConverter(typ) <==> typ <= IFD
  {
  }

  /** exif_write_value: the four value bytes of an entry. An out-of-line
      entry holds its payload offset; an inline one its value in file
      order, converted by the type's unit; a type without an inline
      encoder is fatal. */
  function WriteValue(t: Tag, big: bool): (r: Result<seq<byte>>)
    requires t.size <= 4 ==> |t.data| >= 4
    ensures r.Ok? ==> |r.value| == 4
    ensures t.size > 4 ==> r == Ok(Put32(t.offset, big))
    ensures t.size <= 4 ==> (r.Ok? <==> InlineUnit(t.typ).Some?)
    ensures t.size <= 4 && r.Ok? ==> Reorder(r.value, InlineUnit(t.typ).value, big) == t.data[..4]
  {
    if t.size > 4 then Ok(Put32(t.offset, big))
    else
      match InlineUnit(t.typ)
      case None => Fatal(InlineTypeUnsupported(t.typ))
      case Some(unit) =>
        ReorderInvolution(t.data[..4], unit, big);
        Ok(Reorder(t.data[..4], unit, big))
  }

  /** One 12-byte entry: id, type, count, value or offset. */
  function EncodeEntry(t: Tag, big: bool): (r: Result<seq<byte>>)
    requires t.size <= 4 ==> |t.data| >= 4
    ensures r.Ok? <==> WriteValue(t, big).Ok?
    ensures r.Ok? ==> |r.value| == 12
  {
    var value :- WriteValue(t, big);
    Ok(Put16(t.id, big) + Put16(t.typ, big) + Put32(t.count, big) + value)
  }

  /** Where each field of an entry sits in its 12 bytes. */
  lemma EntryFields(t: Tag, big: bool)
    requires t.size <= 4 ==> |t.data| >= 4
    requires EncodeEntry(t, big).Ok?
    ensures var e := EncodeEntry(t, big).value;
      && e[..2] == Put16(t.id, big) && e[2..4] == Put16(t.typ, big)
      && e[4..8] == Put32(t.count, big) && e[8..] == WriteValue(t, big).value
  {
  }

  function EncodeEntries(tags: seq<Tag>, big: bool): (r: Result<seq<byte>>)
    requires forall i :: 0 <= i < |tags| ==> (tags[i].size <= 4 ==> |tags[i].data| >= 4)
    ensures r.Ok? ==> |r.value| == 12 * |tags|
    decreases |tags|
  {
    if |tags| == 0 then Ok([])
    else
      var head :- EncodeEntry(tags[0], big);
      var rest :- EncodeEntries(tags[1..], big);
      Ok(head + rest)
  }

  /** The entry list encodes exactly when every entry does. */
  lemma {:induction false} EncodeEntriesOk(tags: seq<Tag>, big: bool)
    requires forall i :: 0 <= i < |tags| ==> (tags[i].size <= 4 ==> |tags[i].data| >= 4)
    ensures EncodeEntries(tags, big).Ok? <==> forall i :: 0 <= i < |tags| ==> EncodeEntry(tags[i], big).Ok?
    decreases |tags|
  {
    if |tags| > 0 {
      EncodeEntriesOk(tags[1..], big);
      assert forall i :: 1 <= i < |tags| ==> tags[1..][i - 1] == tags[i];
    }
  }

  /** The offset assignment done while the entries are written: each
      out-of-line payload gets the current offset, which then advances by
      its size rounded up to even. Returns the tags with their offsets and
      the offset after the last payload. */
  function Layout(tags: seq<Tag>, offs: nat): (r: (seq<Tag>, nat))
    ensures |r.0| == |tags|
    ensures r.1 >= offs
    decreases |tags|
  {
    if |tags| == 0 then ([], offs)
    else
      var t := tags[0];
      var here := if t.size > 4 then t.(offset := offs) else t;
      var after := if t.size > 4 then RoundEven(offs + t.size) else offs;
      var rest := Layout(tags[1..], after);
      ([here] + rest.0, rest.1)
  }

  /** The types the payload loop converts element by element. */
  predicate HasConverter(t: nat) {
    IsWordType(t) || IsLongType(t) || IsRational(t) || t == FLOAT || t == DOUBLE
  }

  /** One element of an out-of-line payload in file order: words and longs
      (and floats) as one unit each, a rational as two 32-bit words, a
      double as one 8-byte unit. A type without a converter is copied as
      it is, the way the reader takes it in. */
  function ElementBytes(typ: nat, chunk: seq<byte>, big: bool): (r: seq<byte>)
    requires TypeSize(typ).Some? && |chunk| == TypeSize(typ).value
    ensures |r| == |chunk|
  {
    if IsWordType(typ) then Reorder(chunk, 2, big)
    else if IsLongType(typ) then Reorder(chunk, 4, big)
    else if IsRational(typ) then Reorder(chunk[..4], 4, big) + Reorder(chunk[4..], 4, big)
    else if typ == FLOAT then Reorder(chunk, 4, big)
    else if typ == DOUBLE then Reorder(chunk, 8, big)
    else chunk
  }

  /** One element as exif.cc:1204-1206 is written: a type without a
      converter is written to the input file instead of the output, so it
      contributes nothing. */
  function ElementBytesAsWritten(typ: nat, chunk: seq<byte>, big: bool): (r: seq<byte>)
    requires TypeSize(typ).Some? && |chunk| == TypeSize(typ).value
    ensures HasConverter(typ) ==> r == ElementBytes(typ, chunk, big)
    ensures !HasConverter(typ) ==> r == []
  {
    if HasConverter(typ) then ElementBytes(typ, chunk, big) else []
  }

  /** The element loop: `n` elements read from `data` starting at `at`,
      the data pointer advancing by `step` bytes each time. */
  function Elements(typ: nat, data: seq<byte>, at: nat, step: nat, n: nat, big: bool, asWritten: bool): (r: seq<byte>)
    requires TypeSize(typ) == Some(step)
    requires at + SizeOf(typ, n) <= |data|
    ensures !asWritten ==> |r| == SizeOf(typ, n)
    decreases n
  {
    if n == 0 then []
    else
      var chunk := data[at..at + step];
      var one := if asWritten then ElementBytesAsWritten(typ, chunk, big) else ElementBytes(typ, chunk, big);
      one + Elements(typ, data, at + step, step, n - 1, big, asWritten)
  }

  /** The bytes written for one out-of-line payload: byte types copied
      directly, the others element by element with the pointer advancing
      by size / count. Together this is the whole payload converted to file
      order by the type's unit, which is what the reader undoes. */
  function PayloadBytes(t: Tag, big: bool): (r: seq<byte>)
    requires t.size > 4 && Shaped(t)
    ensures |r| == t.size
  {
    PayloadWith(t, big, false)
  }

  /** The source's element step, size / count, is the element width, the
      step PayloadWith advances by. */
  lemma StepIsWidth(t: Tag)
    requires t.size > 4 && Shaped(t)
    ensures t.count > 0 && t.size / t.count == TypeSize(t.typ).value
  {
    var w := TypeSize(t.typ).value;
    SizeOfIsProduct(t.typ, t.count);
    assert t.count > 0;
    MulDiv(t.count, w);
  }

  lemma MulDiv(a: nat, b: nat)
    requires a > 0
    ensures (a * b) / a == b
  {
    var q := (a * b) / a;
    var r := (a * b) % a;
    assert a * b == a * q + r && 0 <= r < a;
    if q < b {
      MulMono(a, q + 1, b);
    } else {
      MulMono(a, b, q);
    }
  }

  lemma MulMono(a: nat, x: nat, y: nat)
    requires x <= y
    ensures a * x <= a * y
  {
  }

  /** The bytes written for an out-of-line payload are the payload
      converted to file order by the type's unit, which is what the reader
      undoes. */
  lemma PayloadIsReorder(t: Tag, big: bool)
    requires t.size > 4 && Shaped(t)
    ensures PayloadBytes(t, big) == Reorder(t.data[..t.size], PayloadUnit(t.typ), big)
  {
    if !IsByteType(t.typ) {
      ElementsAreReorder(t.typ, t.data, 0, t.size, TypeSize(t.typ).value, t.count, big);
      assert t.data[0..t.size] == t.data[..t.size];
    } else if big {
      SwapUnitsOne(t.data[..t.size]);
    }
  }

  /** The payload as exif.cc:1179-1208 is written: a type with neither a
      raw copy nor a converter loses its whole payload. */
  function PayloadBytesAsWritten(t: Tag, big: bool): (r: seq<byte>)
    requires t.size > 4 && Shaped(t)
    ensures IsByteType(t.typ) || HasConverter(t.typ) ==> r == PayloadBytes(t, big)
    ensures !IsByteType(t.typ) && !HasConverter(t.typ) ==> r == []
  {
    if IsByteType(t.typ) then PayloadWith(t, big, true)
    else
      ElementsAsWritten(t.typ, t.data, 0, TypeSize(t.typ).value, t.count, big);
      PayloadWith(t, big, true)
  }

  /** For every tag the writer admits, the payload loop as written emits
      exactly the corrected payload bytes. */
  lemma PayloadAsWrittenWritable(t: Tag, big: bool)
    requires t.size > 4 && Writable(t)
    ensures PayloadBytesAsWritten(t, big) == PayloadBytes(t, big)
    ensures |PayloadBytesAsWritten(t, big)| == t.size
  {
    ConvertedTypes(t.typ);
  }

  /** An element's conversion is the conversion of its bytes by the
      payload unit of its type. */
  lemma ElementIsReorder(typ: nat, chunk: seq<byte>, big: bool)
    requires TypeSize(typ).Some? && |chunk| == TypeSize(typ).value
    ensures ElementBytes(typ, chunk, big) == Reorder(chunk, PayloadUnit(typ), big)
  {
    if big {
      if IsRational(typ) {
        assert SwapUnits(chunk, 4) == Reverse(chunk[..4]) + SwapUnits(chunk[4..], 4);
      } else if !HasConverter(typ) {
        SwapUnitsOne(chunk);
      }
    }
  }

  /** The element loop over `data[at..end]` converts exactly those bytes by
      the payload unit of the type. */
  lemma {:induction false} ElementsAreReorder(typ: nat, data: seq<byte>, at: nat, end: nat, w: nat, n: nat, big: bool)
    requires TypeSize(typ) == Some(w)
    requires end == at + SizeOf(typ, n) <= |data|
    ensures Elements(typ, data, at, w, n, big, false) == Reorder(data[at..end], PayloadUnit(typ), big)
    decreases n
  {
    if n > 0 {
      SizeOfStep(typ, n);
      ElementsAreReorder(typ, data, at + w, end, w, n - 1, big);
      ElementsJoin(typ, data, at, end, w, n, big);
    }
  }

  /** One turn of the element loop appends the converted element to the
      conversion of the rest. */
  lemma ElementsJoin(typ: nat, data: seq<byte>, at: nat, end: nat, w: nat, n: nat, big: bool)
    requires TypeSize(typ) == Some(w) && n > 0
    requires end == at + SizeOf(typ, n) <= |data|
    requires end == at + w + SizeOf(typ, n - 1)
    requires Elements(typ, data, at + w, w, n - 1, big, false) == Reorder(data[at + w..end], PayloadUnit(typ), big)
    ensures Elements(typ, data, at, w, n, big, false) == Reorder(data[at..end], PayloadUnit(typ), big)
  {
    ElementIsReorder(typ, data[at..at + w], big);
    ElementUnits(typ, data[at..at + w]);
    SliceSplit(data, at, at + w, end);
    ElementsStep(typ, data, at, w, n, big);
    ReorderJoin(data[at..end], data[at..at + w], data[at + w..end], Elements(typ, data, at, w, n, big, false),
                ElementBytes(typ, data[at..at + w], big), Elements(typ, data, at + w, w, n - 1, big, false),
                PayloadUnit(typ), big);
  }

  /** An element is a whole number of payload units. */
  lemma ElementUnits(typ: nat, chunk: seq<byte>)
    requires TypeSize(typ).Some? && |chunk| == TypeSize(typ).value
    ensures |chunk| % PayloadUnit(typ) == 0
  {
    PayloadUnitDividesWidth(typ);
  }

  /** One turn of the element loop. */
  lemma ElementsStep(typ: nat, data: seq<byte>, at: nat, w: nat, n: nat, big: bool)
    requires TypeSize(typ) == Some(w) && n > 0
    requires at + SizeOf(typ, n) <= |data|
    ensures at + w + SizeOf(typ, n - 1) <= |data|
    ensures Elements(typ, data, at, w, n, big, false)
            == ElementBytes(typ, data[at..at + w], big) + Elements(typ, data, at + w, w, n - 1, big, false)
  {
    SizeOfStep(typ, n);
  }

  lemma {:induction false} ElementsAsWritten(typ: nat, data: seq<byte>, at: nat, w: nat, n: nat, big: bool)
    requires TypeSize(typ) == Some(w)
    requires at + SizeOf(typ, n) <= |data|
    ensures HasConverter(typ) ==> Elements(typ, data, at, w, n, big, true) == Elements(typ, data, at, w, n, big, false)
    ensures !HasConverter(typ) ==> Elements(typ, data, at, w, n, big, true) == []
    decreases n
  {
    if n > 0 {
      SizeOfStep(typ, n);
      ElementsAsWritten(typ, data, at + w, w, n - 1, big);
    }
  }

  /** A LONG8 payload (one 8-byte element) is announced in its entry but
      none of its bytes reach the output as the loop is written; the
      corrected loop writes all eight. */
  lemma PayloadAsWrittenDropsLong8()
    ensures var t := Tag(0x0001, LONG8, 1, 8, 0, 0, [1, 2, 3, 4, 5, 6, 7, 8]);
            && Shaped(t) && !Writable(t)
            && PayloadBytesAsWritten(t, false) == []
            && PayloadBytes(t, false) == [1, 2, 3, 4, 5, 6, 7, 8]
  {
    var t := Tag(0x0001, LONG8, 1, 8, 0, 0, [1, 2, 3, 4, 5, 6, 7, 8]);
    assert t.data[..8] == t.data;
  }

  function PayloadWith(t: Tag, big: bool, asWritten: bool): (r: seq<byte>)
    requires t.size > 4 && Shaped(t)
    ensures !asWritten ==> |r| == t.size
  {
    if IsByteType(t.typ) then t.data[..t.size]
    else
      Elements(t.typ, t.data, 0, TypeSize(t.typ).value, t.count, big, asWritten)
  }

  /** One tag's share of the payload area: nothing for an inline value;
      otherwise its payload (which is what the loop as written emits, by
      PayloadAsWrittenWritable), followed by a zero byte when it ends at an
      odd absolute position (`at` is where it starts). */
  function PaddedPayload(t: Tag, big: bool, at: nat): (r: seq<byte>)
    requires Writable(t)
    ensures t.size <= 4 ==> r == []
    ensures t.size > 4 ==> at + |r| == RoundEven(at + t.size)
  {
    if t.size <= 4 then []
    else
      var bytes := PayloadBytes(t, big);
      var pad: seq<byte> := if (at + |bytes|) % 2 == 1 then [0] else [];
      bytes + pad
  }

  /** An out-of-line payload's share of the area is the payload itself,
      then zero padding. */
  lemma PaddedShape(t: Tag, big: bool, at: nat)
    requires Writable(t) && t.size > 4
    ensures var r := PaddedPayload(t, big, at);
            && r[..t.size] == PayloadBytes(t, big)
            && forall k :: t.size <= k < |r| ==> r[k] == 0
  {
    var bytes := PayloadBytes(t, big);
    var pad: seq<byte> := if (at + |bytes|) % 2 == 1 then [0] else [];
    assert (bytes + pad)[..t.size] == bytes;
  }

  /** The payload area: the padded payloads in entry order. */
  function Payloads(tags: seq<Tag>, big: bool, at: nat): (r: seq<byte>)
    requires AllWritable(tags)
    decreases |tags|
  {
    if |tags| == 0 then []
    else
      var head := PaddedPayload(tags[0], big, at);
      head + Payloads(tags[1..], big, at + |head|)
  }

  predicate AllWritable(tags: seq<Tag>) {
    forall i :: 0 <= i < |tags| ==> Writable(tags[i])
  }

  /** exif_write_ifd at absolute position `pos`: the explicit entry count,
      the entries (out-of-line offsets assigned from just after the next
      pointer), the next pointer (the offset after the last payload when
      `next` is set, else 0) and the payloads. Also returns the directory
      with the offsets it assigned. */
  function WriteIfd(d: Ifd, next: bool, pos: nat, big: bool): (r: Result<(seq<byte>, Ifd)>)
    requires AllWritable(d.tags)
    ensures r.Ok? ==> r.value.1 == d.(tags := Layout(d.tags, pos + 2 + 12 * d.count + 4).0)
  {
    var laid := Layout(d.tags, pos + 2 + 12 * d.count + 4);
    LaidWritable(d.tags, pos + 2 + 12 * d.count + 4);
    var out :- WriteLaid(d.count, laid.0, if next then laid.1 else 0, pos, big);
    Ok((out, d.(tags := laid.0)))
  }

  /** The second half of exif_write_ifd, once the offsets are assigned: the
      entries, then the payloads from the position just past the next
      pointer. */
  function WriteLaid(count: nat, laid: seq<Tag>, next: nat, pos: nat, big: bool): (r: Result<seq<byte>>)
    requires AllWritable(laid)
    ensures r.Ok? <==> EncodeEntries(laid, big).Ok?
  {
    var entries :- EncodeEntries(laid, big);
    var area := Payloads(laid, big, pos + 2 + |entries| + 4);
    Ok(IfdBytes(count, entries, next, area, big))
  }

  /** The count, the entries, the next pointer and the payload area, in
      that order. */
  function IfdBytes(count: nat, entries: seq<byte>, next: nat, area: seq<byte>, big: bool): (r: seq<byte>)
    ensures |r| == 6 + |entries| + |area|
    ensures r[..2] == Put16(count, big)
  {
    Put16(count, big) + entries + Put32(next, big) + area
  }

  lemma LaidWritable(tags: seq<Tag>, offs: nat)
    requires AllWritable(tags)
    ensures AllWritable(Layout(tags, offs).0)
  {
    LayoutKeeps(tags, offs);
    forall i | 0 <= i < |tags| ensures Writable(Layout(tags, offs).0[i]) {
      assert Writable(tags[i]);
    }
  }

  /** Layout changes only the offsets of out-of-line tags. */
  lemma {:induction false} LayoutKeeps(tags: seq<Tag>, offs: nat)
    ensures forall i :: 0 <= i < |tags| ==> Layout(tags, offs).0[i] == tags[i].(offset := Layout(tags, offs).0[i].offset)
    ensures forall i :: 0 <= i < |tags| && tags[i].size <= 4 ==> Layout(tags, offs).0[i] == tags[i]
    decreases |tags|
  {
    if |tags| > 0 {
      var t := tags[0];
      var after := if t.size > 4 then RoundEven(offs + t.size) else offs;
      LayoutKeeps(tags[1..], after);
    }
  }
}

/** Where the writer puts things: sizes, offsets and payload positions. */
module WriterFacts {
  import opened Outcomes
  import opened Bytes
  import opened FieldTypes
  import opened Directory
  import opened Writer

  /** From an even start, the offsets advance by exactly the padded
      payload lengths exif_ifd_size adds up, and every out-of-line payload
      gets an even offset inside that span. */
  lemma {:induction false} LayoutEnd(tags: seq<Tag>, offs: nat)
    requires offs % 2 == 0
    ensures Layout(tags, offs).1 == offs + PayloadTotal(tags)
    decreases |tags|
  {
    if |tags| > 0 {
      var t := tags[0];
      var after := if t.size > 4 then RoundEven(offs + t.size) else offs;
      assert t.size > 4 ==> after == offs + RoundEven(t.size);
      LayoutEnd(tags[1..], after);
    }
  }

  lemma {:induction false} LayoutOffsetsEven(tags: seq<Tag>, offs: nat, i: nat)
    requires offs % 2 == 0 && i < |tags| && tags[i].size > 4
    ensures Layout(tags, offs).0[i].offset % 2 == 0
    decreases |tags|
  {
    if i > 0 {
      var t := tags[0];
      var after := if t.size > 4 then RoundEven(offs + t.size) else offs;
      LayoutOffsetsEven(tags[1..], after, i - 1);
    }
  }

  /** The offset after the first tag's payload, if it has one. */
  function After(t: Tag, at: nat): nat {
    if t.size > 4 then RoundEven(at + t.size) else at
  }

  /** The payload area is the first tag's padded payload followed by the
      area of the others, which starts at `after`. */
  lemma PayloadsCons(tags: seq<Tag>, big: bool, at: nat, after: nat)
    requires AllWritable(tags) && |tags| > 0 && after == After(tags[0], at)
    ensures at + |PaddedPayload(tags[0], big, at)| == after
    ensures Payloads(tags, big, at) == PaddedPayload(tags[0], big, at) + Payloads(tags[1..], big, after)
  {
    var head := PaddedPayload(tags[0], big, at);
    PaddedLength(tags[0], big, at);
    assert Payloads(tags, big, at) == head + Payloads(tags[1..], big, at + |head|);
  }

  lemma PaddedLength(t: Tag, big: bool, at: nat)
    requires Writable(t)
    ensures at + |PaddedPayload(t, big, at)| == After(t, at)
  {
  }

  lemma LayoutCons(tags: seq<Tag>, offs: nat, after: nat)
    requires |tags| > 0 && after == After(tags[0], offs)
    ensures Layout(tags, offs).0[1..] == Layout(tags[1..], after).0
    ensures Layout(tags, offs).1 == Layout(tags[1..], after).1
    ensures tags[0].size > 4 ==> Layout(tags, offs).0[0].offset == offs
  {
  }

  /** The payload bytes do not depend on the offsets the layout assigns. */
  lemma {:induction false} PayloadsIgnoreOffsets(tags: seq<Tag>, big: bool, at: nat)
    requires AllWritable(tags)
    ensures AllWritable(Layout(tags, at).0)
    ensures Payloads(Layout(tags, at).0, big, at) == Payloads(tags, big, at)
    decreases |tags|
  {
    LaidWritable(tags, at);
    if |tags| > 0 {
      var laid := Layout(tags, at).0;
      var after := After(tags[0], at);
      LayoutCons(tags, at, after);
      LayoutKeeps(tags, at);
      assert laid[0] == tags[0].(offset := laid[0].offset);
      assert After(laid[0], at) == after;
      PayloadsCons(tags, big, at, after);
      PayloadsCons(laid, big, at, after);
      PayloadsIgnoreOffsets(tags[1..], big, after);
      PaddedIgnoresOffset(tags[0], laid[0].offset, big, at);
    }
  }

  lemma PaddedIgnoresOffset(t: Tag, o: nat, big: bool, at: nat)
    requires Writable(t)
    ensures Writable(t.(offset := o))
    ensures PaddedPayload(t.(offset := o), big, at) == PaddedPayload(t, big, at)
  {
    if t.size > 4 {
      assert PayloadBytes(t.(offset := o), big) == PayloadBytes(t, big);
    }
  }

  /** The payload area is exactly as long as the offsets advanced. */
  lemma {:induction false} PayloadsLength(tags: seq<Tag>, big: bool, at: nat)
    requires AllWritable(tags)
    ensures |Payloads(tags, big, at)| == Layout(tags, at).1 - at
    decreases |tags|
  {
    if |tags| > 0 {
      var after := After(tags[0], at);
      PayloadsCons(tags, big, at, after);
      LayoutCons(tags, at, after);
      PayloadsLength(tags[1..], big, after);
    }
  }

  /** The payload area is empty exactly when every value sits inline. */
  lemma {:induction false} InlineOnlyNoArea(tags: seq<Tag>, big: bool, at: nat)
    requires AllWritable(tags)
    ensures Payloads(tags, big, at) == [] <==> forall i :: 0 <= i < |tags| ==> tags[i].size <= 4
    decreases |tags|
  {
    if |tags| > 0 {
      var head := PaddedPayload(tags[0], big, at);
      assert Payloads(tags, big, at) == head + Payloads(tags[1..], big, at + |head|);
      InlineOnlyNoArea(tags[1..], big, at + |head|);
      assert forall i :: 1 <= i < |tags| ==> tags[i] == tags[1..][i - 1];
    }
  }

  /** The `i`th payload sits inside the area at its announced offset. */
  predicate Placed(tags: seq<Tag>, big: bool, at: nat, i: nat)
    requires AllWritable(tags)
    requires i < |tags| && tags[i].size > 4
  {
    var (laid, end) := Layout(tags, at);
    && at <= laid[i].offset
    && laid[i].offset + tags[i].size <= end
    && |Payloads(tags, big, at)| == end - at
    && Payloads(tags, big, at)[laid[i].offset - at..laid[i].offset - at + tags[i].size]
       == PayloadBytes(tags[i], big)
  }

  /** Every out-of-line payload lands at the offset its entry announces. */
  lemma {:induction false} PayloadPlaced(tags: seq<Tag>, big: bool, at: nat, i: nat)
    requires AllWritable(tags)
    requires i < |tags| && tags[i].size > 4
    ensures Placed(tags, big, at, i)
    decreases |tags|
  {
    if i == 0 {
      PlacedFirst(tags, big, at);
    } else {
      var after := After(tags[0], at);
      PayloadPlaced(tags[1..], big, after, i - 1);
      PlacedLater(tags, big, at, after, i);
    }
  }

  lemma PlacedFirst(tags: seq<Tag>, big: bool, at: nat)
    requires AllWritable(tags)
    requires 0 < |tags| && tags[0].size > 4
    ensures Placed(tags, big, at, 0)
  {
    var after := After(tags[0], at);
    PayloadsLength(tags, big, at);
    PayloadsCons(tags, big, at, after);
    LayoutCons(tags, at, after);
    var head := PaddedPayload(tags[0], big, at);
    var rest := Payloads(tags[1..], big, after);
    PaddedShape(tags[0], big, at);
    assert (head + rest)[..tags[0].size] == head[..tags[0].size];
  }

  lemma PlacedLater(tags: seq<Tag>, big: bool, at: nat, after: nat, i: nat)
    requires AllWritable(tags) && 0 < i < |tags| && tags[i].size > 4
    requires after == After(tags[0], at)
    requires Placed(tags[1..], big, after, i - 1)
    ensures Placed(tags, big, at, i)
  {
    PlacedInTail(tags, big, at, after, i);
    LayoutShift(tags, at, after, i);
    PayloadsLength(tags, big, at);
    var o := Layout(tags, at).0[i].offset;
    SlicePast(tags, big, at, after, o, tags[i].size);
    PlacedFrom(tags, big, at, i, o, Payloads(tags, big, at));
  }

  /** What the placement of the `i`th tag within the rest says. */
  lemma PlacedInTail(tags: seq<Tag>, big: bool, at: nat, after: nat, i: nat)
    requires AllWritable(tags) && 0 < i < |tags| && tags[i].size > 4
    requires after == After(tags[0], at)
    requires Placed(tags[1..], big, after, i - 1)
    ensures var o := Layout(tags[1..], after).0[i - 1].offset;
            var end := Layout(tags[1..], after).1;
            var rest := Payloads(tags[1..], big, after);
            && after <= o && o + tags[i].size <= end && |rest| == end - after
            && rest[o - after..o - after + tags[i].size] == PayloadBytes(tags[i], big)
  {
    assert tags[1..][i - 1] == tags[i];
  }

  lemma LayoutShift(tags: seq<Tag>, at: nat, after: nat, i: nat)
    requires 0 < i < |tags| && after == After(tags[0], at)
    ensures Layout(tags, at).0[i].offset == Layout(tags[1..], after).0[i - 1].offset
    ensures Layout(tags, at).1 == Layout(tags[1..], after).1
  {
    LayoutCons(tags, at, after);
  }

  lemma PlacedFrom(tags: seq<Tag>, big: bool, at: nat, i: nat, o: nat, area: seq<byte>)
    requires AllWritable(tags) && i < |tags| && tags[i].size > 4
    requires o == Layout(tags, at).0[i].offset && area == Payloads(tags, big, at)
    requires at <= o && o + tags[i].size <= Layout(tags, at).1 && |area| == Layout(tags, at).1 - at
    requires area[o - at..o - at + tags[i].size] == PayloadBytes(tags[i], big)
    ensures Placed(tags, big, at, i)
  {
  }

  /** A slice of the area past the first payload is a slice of the rest;
      `o` is an absolute offset. */
  lemma SlicePast(tags: seq<Tag>, big: bool, at: nat, after: nat, o: nat, len: nat)
    requires AllWritable(tags) && |tags| > 0 && after == After(tags[0], at)
    requires after <= o && o - after + len <= |Payloads(tags[1..], big, after)|
    ensures o - at + len <= |Payloads(tags, big, at)|
    ensures Payloads(tags, big, at)[o - at..o - at + len] == Payloads(tags[1..], big, after)[o - after..o - after + len]
  {
    var head := PaddedPayload(tags[0], big, at);
    var rest := Payloads(tags[1..], big, after);
    PayloadsCons(tags, big, at, after);
    SliceOfSuffix(head + rest, |head|, o - after, len);
    ConcatParts(head, rest);
  }

  /** Each out-of-line payload's range lies between the start offset and
      the end offset. */
  lemma {:induction false} LayoutBounds(tags: seq<Tag>, offs: nat, j: nat)
    requires j < |tags| && tags[j].size > 4
    ensures offs <= Layout(tags, offs).0[j].offset
    ensures Layout(tags, offs).0[j].offset + tags[j].size <= Layout(tags, offs).1
    decreases |tags|
  {
    var after := After(tags[0], offs);
    LayoutCons(tags, offs, after);
    if j == 0 {
      LayoutAdvance(tags[1..], after);
    } else {
      LayoutBounds(tags[1..], after, j - 1);
      assert tags[1..][j - 1] == tags[j];
    }
  }

  lemma {:induction false} LayoutAdvance(tags: seq<Tag>, offs: nat)
    ensures offs <= Layout(tags, offs).1
  {
  }

  /** The payload ranges are disjoint and in entry order. */
  lemma {:induction false} LayoutDisjoint(tags: seq<Tag>, offs: nat, i: nat, j: nat)
    requires i < j < |tags| && tags[i].size > 4 && tags[j].size > 4
    ensures Layout(tags, offs).0[i].offset + tags[i].size <= Layout(tags, offs).0[j].offset
    decreases |tags|
  {
    var after := After(tags[0], offs);
    LayoutCons(tags, offs, after);
    assert tags[1..][j - 1] == tags[j];
    if i == 0 {
      LayoutBounds(tags[1..], after, j - 1);
    } else {
      LayoutDisjoint(tags[1..], after, i - 1, j - 1);
      assert tags[1..][i - 1] == tags[i];
    }
  }

  /** From an even start, the directory written at `pos` is exactly as long
      as exif_ifd_size says (when that fits in 32 bits), and the next
      pointer it carries, when set, is the position just past it. */
  lemma WriteIfdSize(d: Ifd, next: bool, pos: nat, big: bool)
    requires AllWritable(d.tags) && d.count == |d.tags| && pos % 2 == 0
    requires WriteIfd(d, next, pos, big).Ok?
    ensures var out := WriteIfd(d, next, pos, big).value.0;
            && |out| == 6 + 12 * d.count + PayloadTotal(d.tags)
            && (|out| < TWO32 ==> |out| == IfdSize(d))
            && out[2 + 12 * d.count..6 + 12 * d.count] == Put32(if next then pos + |out| else 0, big)
  {
    var start := pos + 2 + 12 * d.count + 4;
    var laid := Layout(d.tags, start).0;
    var end := Layout(d.tags, start).1;
    WriteIfdLength(d, next, pos, big, laid, end);
    WriteIfdNext(d, next, pos, big, laid, end);
    var out := WriteIfd(d, next, pos, big).value.0;
    if |out| < TWO32 {
      SmallMod(|out|, TWO32);
    }
  }

  /** The entries and the payload area of a laid-out directory take
      12 bytes per entry plus the padded payload total, and the layout ends
      exactly where they do. */
  lemma PartsLength(d: Ifd, pos: nat, big: bool, laid: seq<Tag>, end: nat)
    requires AllWritable(d.tags) && d.count == |d.tags| && pos % 2 == 0
    requires laid == Layout(d.tags, pos + 2 + 12 * d.count + 4).0
    requires end == Layout(d.tags, pos + 2 + 12 * d.count + 4).1
    requires AllWritable(laid) && EncodeEntries(laid, big).Ok?
    ensures |EncodeEntries(laid, big).value| == 12 * d.count
    ensures |Payloads(laid, big, pos + 2 + 12 * d.count + 4)| == PayloadTotal(d.tags)
    ensures end == pos + 6 + 12 * d.count + PayloadTotal(d.tags)
  {
    AreaLength(d.tags, pos + 2 + 12 * d.count + 4, big, laid, end);
  }

  /** The written directory is its count, entries, next pointer and area. */
  lemma WriteIfdLength(d: Ifd, next: bool, pos: nat, big: bool, laid: seq<Tag>, end: nat)
    requires AllWritable(d.tags) && d.count == |d.tags| && pos % 2 == 0
    requires WriteIfd(d, next, pos, big).Ok?
    requires laid == Layout(d.tags, pos + 2 + 12 * d.count + 4).0
    requires end == Layout(d.tags, pos + 2 + 12 * d.count + 4).1
    ensures |WriteIfd(d, next, pos, big).value.0| == 6 + 12 * d.count + PayloadTotal(d.tags)
    ensures end == pos + |WriteIfd(d, next, pos, big).value.0|
  {
    WriteIfdParts(d, next, pos, big, laid, end);
    PartsLength(d, pos, big, laid, end);
  }

  /** From an even start, the payload area and the offsets both advance by
      exactly the padded payload total. */
  lemma AreaLength(tags: seq<Tag>, start: nat, big: bool, laid: seq<Tag>, end: nat)
    requires AllWritable(tags) && start % 2 == 0
    requires laid == Layout(tags, start).0 && end == Layout(tags, start).1
    ensures AllWritable(laid)
    ensures |Payloads(laid, big, start)| == PayloadTotal(tags)
    ensures end == start + PayloadTotal(tags)
  {
    PayloadsIgnoreOffsets(tags, big, start);
    PayloadsLength(tags, big, start);
    LayoutEnd(tags, start);
  }

  lemma WriteIfdNext(d: Ifd, next: bool, pos: nat, big: bool, laid: seq<Tag>, end: nat)
    requires AllWritable(d.tags) && d.count == |d.tags|
    requires WriteIfd(d, next, pos, big).Ok?
    requires laid == Layout(d.tags, pos + 2 + 12 * d.count + 4).0
    requires end == Layout(d.tags, pos + 2 + 12 * d.count + 4).1
    ensures var out := WriteIfd(d, next, pos, big).value.0;
            |out| >= 6 + 12 * d.count && out[2 + 12 * d.count..6 + 12 * d.count] == Put32(if next then end else 0, big)
  {
    WriteIfdParts(d, next, pos, big, laid, end);
    var entries := EncodeEntries(laid, big).value;
    IfdBytesNext(d.count, entries, if next then end else 0, Payloads(laid, big, pos + 2 + 12 * d.count + 4), big);
  }

  lemma IfdBytesNext(count: nat, entries: seq<byte>, next: nat, area: seq<byte>, big: bool)
    ensures IfdBytes(count, entries, next, area, big)[2 + |entries|..6 + |entries|] == Put32(next, big)
  {
    assert IfdBytes(count, entries, next, area, big) == (Put16(count, big) + entries + Put32(next, big)) + area;
  }

  lemma SmallMod(x: nat, m: nat)
    requires x < m
    ensures x % m == x
  {
  }

  /** The pieces of a written directory, given its layout. */
  lemma WriteIfdParts(d: Ifd, next: bool, pos: nat, big: bool, laid: seq<Tag>, end: nat)
    requires AllWritable(d.tags) && d.count == |d.tags|
    requires WriteIfd(d, next, pos, big).Ok?
    requires laid == Layout(d.tags, pos + 2 + 12 * d.count + 4).0
    requires end == Layout(d.tags, pos + 2 + 12 * d.count + 4).1
    ensures AllWritable(laid) && EncodeEntries(laid, big).Ok?
    ensures WriteIfd(d, next, pos, big).value.0
            == IfdBytes(d.count, EncodeEntries(laid, big).value, if next then end else 0,
                        Payloads(laid, big, pos + 2 + 12 * d.count + 4), big)
  {
    WriteIfdLaid(d, next, pos, big, laid, end);
    WriteLaidParts(d.count, laid, if next then end else 0, pos, big);
  }

  /** A directory that writes is its laid-out tags written from `pos`. */
  lemma WriteIfdLaid(d: Ifd, next: bool, pos: nat, big: bool, laid: seq<Tag>, end: nat)
    requires AllWritable(d.tags) && WriteIfd(d, next, pos, big).Ok?
    requires laid == Layout(d.tags, pos + 2 + 12 * d.count + 4).0
    requires end == Layout(d.tags, pos + 2 + 12 * d.count + 4).1
    ensures AllWritable(laid)
    ensures WriteLaid(d.count, laid, if next then end else 0, pos, big) == Ok(WriteIfd(d, next, pos, big).value.0)
  {
    LaidWritable(d.tags, pos + 2 + 12 * d.count + 4);
  }

  /** The pieces WriteLaid puts together, with the payload area starting
      12 bytes per entry past the count. */
  lemma WriteLaidParts(count: nat, laid: seq<Tag>, next: nat, pos: nat, big: bool)
    requires AllWritable(laid) && count == |laid| && EncodeEntries(laid, big).Ok?
    ensures WriteLaid(count, laid, next, pos, big)
            == Ok(IfdBytes(count, EncodeEntries(laid, big).value, next, Payloads(laid, big, pos + 2 + 12 * count + 4), big))
  {
  }

  /** A directory writes exactly when every inline value has an encoder;
      otherwise exif_write_value's fatal error ends the write. */
  lemma WriteIfdOk(d: Ifd, next: bool, pos: nat, big: bool)
    requires AllWritable(d.tags)
    ensures WriteIfd(d, next, pos, big).Ok?
            <==> forall i :: 0 <= i < |d.tags| ==> (d.tags[i].size <= 4 ==> InlineUnit(d.tags[i].typ).Some?)
  {
    LaidWritable(d.tags, pos + 2 + 12 * d.count + 4);
    LaidEncodesIff(d.tags, pos + 2 + 12 * d.count + 4, big);
  }

  /** The laid-out entries encode exactly when every inline value has an
      encoder. */
  lemma LaidEncodesIff(tags: seq<Tag>, start: nat, big: bool)
    requires AllWritable(tags)
    ensures AllWritable(Layout(tags, start).0)
    ensures EncodeEntries(Layout(tags, start).0, big).Ok?
            <==> forall i :: 0 <= i < |tags| ==> (tags[i].size <= 4 ==> InlineUnit(tags[i].typ).Some?)
  {
    var laid := Layout(tags, start).0;
    LaidWritable(tags, start);
    LayoutKeeps(tags, start);
    EncodeEntriesOk(laid, big);
    forall i | 0 <= i < |tags|
      ensures EncodeEntry(laid[i], big).Ok? <==> (tags[i].size <= 4 ==> InlineUnit(tags[i].typ).Some?)
    {
      assert laid[i] == tags[i].(offset := laid[i].offset);
    }
  }

  lemma ConcatParts(a: seq<byte>, b: seq<byte>)
    ensures (a + b)[|a|..] == b && (a + b)[..|a|] == a
  {
  }

  lemma SliceOfSuffix(s: seq<byte>, k: nat, off: nat, len: nat)
    requires k + off + len <= |s|
    ensures s[k + off..k + off + len] == s[k..][off..off + len]
  {
  }
}
