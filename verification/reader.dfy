/** The directory reader (exif_read_ifd, exif_read_app) and the segment
    header check (exif_examine_app).

    The reader works on the TIFF blob as a byte sequence whose offsets are
    relative to its first byte. A read that would pass the end of the blob
    is reported as `Truncated`.
 */
module Reader {
  import opened Outcomes
  import opened Bytes
  import opened FieldTypes
  import opened Directory

  /** The sub-directory offsets noticed while reading: EXIF and GPS from the
      primary directory, Interoperability from the EXIF directory. */
  datatype Pointers = Pointers(exif: nat, gps: nat, interop: nat)

  const NO_POINTERS := Pointers(0, 0, 0)

  /** The payload size of an entry: element width times count, computed in
      32-bit unsigned arithmetic as the source does. */
  function EntrySize(typ: nat, count: nat): nat
    requires TypeSize(typ).Some?
  {
    SizeOf(typ, count) % TWO32
  }

  /** Decodes the 12-byte entry at `pos`: id, type, count, and either the
      inline value or the offset of the payload. The payload behind an
      offset is fetched later by `Resolve`; until then the data is four zero
      bytes. */
  function ReadEntry(buf: seq<byte>, big: bool, pos: nat): (r: Result<Tag>)
    ensures r.Ok? ==> pos + 12 <= |buf|
    ensures pos + 12 > |buf| ==> r == Fatal(Truncated)
    ensures pos + 12 <= |buf| && TypeSize(Get16(buf, pos + 2, big)).None? ==>
              r == Fatal(UnknownType(Get16(buf, pos + 2, big)))
    ensures r.Ok? ==>
              && r.value.id == Get16(buf, pos, big)
              && r.value.typ == Get16(buf, pos + 2, big)
              && r.value.count == Get32(buf, pos + 4, big)
              && TypeSize(r.value.typ).Some?
              && r.value.size == EntrySize(r.value.typ, r.value.count)
              && |r.value.data| == 4
    ensures r.Ok? && r.value.size <= 4 ==>
              && InlineUnit(r.value.typ).Some?
              && r.value.data == Reorder(buf[pos + 8..pos + 12], InlineUnit(r.value.typ).value, big)
              && r.value.original == r.value.ToLong()
              && r.value.offset == 0
    ensures r.Ok? && r.value.size > 4 ==>
              && r.value.offset == Get32(buf, pos + 8, big)
              && r.value.original == r.value.offset
              && r.value.data == Zeros(4)
    ensures pos + 12 <= |buf| && TypeSize(Get16(buf, pos + 2, big)).Some?
            && EntrySize(Get16(buf, pos + 2, big), Get32(buf, pos + 4, big)) <= 4
            && InlineUnit(Get16(buf, pos + 2, big)).None? ==>
              r == Fatal(InlineTypeUnsupported(Get16(buf, pos + 2, big)))
  {
    if pos + 12 > |buf| then Fatal(Truncated)
    else
      var id := Get16(buf, pos, big);
      var typ := Get16(buf, pos + 2, big);
      var count := Get32(buf, pos + 4, big);
      match TypeSize(typ)
      case None => Fatal(UnknownType(typ))
      case Some(_) =>
        var size := EntrySize(typ, count);
        if size <= 4 then
          match InlineUnit(typ)
          case None => Fatal(InlineTypeUnsupported(typ))
          case Some(unit) =>
            var data := Reorder(buf[pos + 8..pos + 12], unit, big);
            Ok(Tag(id, typ, count, size, 0, LittleValue(data[..4]), data))
        else
          var offset := Get32(buf, pos + 8, big);
          Ok(Tag(id, typ, count, size, offset, offset, Zeros(4)))
  }

  /** Decodes `n` consecutive entries starting at `pos`. */
  function ReadEntries(buf: seq<byte>, big: bool, pos: nat, n: nat): (r: Result<seq<Tag>>)
    ensures r.Ok? ==> |r.value| == n
    ensures r.Ok? && n > 0 ==> pos + 12 * n <= |buf|
    decreases n
  {
    if n == 0 then Ok([])
    else
      var head :- ReadEntry(buf, big, pos);
      var rest :- ReadEntries(buf, big, pos + 12, n - 1);
      Ok([head] + rest)
  }

  /** Entry `i` of the list is the entry decoded at `pos + 12 * i`. */
  lemma {:induction false} ReadEntriesAt(buf: seq<byte>, big: bool, pos: nat, n: nat, i: nat)
    requires ReadEntries(buf, big, pos, n).Ok?
    requires i < n
    ensures ReadEntry(buf, big, pos + 12 * i) == Ok(ReadEntries(buf, big, pos, n).value[i])
    decreases n
  {
    if i > 0 {
      ReadEntriesAt(buf, big, pos + 12, n - 1, i - 1);
      assert pos + 12 * i == (pos + 12) + 12 * (i - 1);
    }
  }

  /** The value `toLong()` yields for an entry at the moment the entry is
      read: its inline value, or zero for an out-of-line entry whose data
      is still the four zero bytes. */
  function CapturedValue(t: Tag): nat {
    if t.size <= 4 then t.original else 0
  }

  /** Notices a sub-directory pointer in one entry: EXIF (0x8769) and GPS
      (0x8825) only in the primary directory, Interoperability (0xA005)
      only in the EXIF directory. */
  function Capture(kind: IfdKind, t: Tag, p: Pointers): (r: Pointers)
    ensures r.exif != p.exif ==> kind == Ifd0 && t.id == TAG_EXIF_IFD && r.exif == CapturedValue(t)
    ensures r.gps != p.gps ==> kind == Ifd0 && t.id == TAG_GPS_IFD && r.gps == CapturedValue(t)
    ensures r.interop != p.interop ==> kind == ExifIfd && t.id == TAG_INTEROP_IFD && r.interop == CapturedValue(t)
    ensures kind == Ifd0 && t.id == TAG_EXIF_IFD ==> r.exif == CapturedValue(t)
    ensures kind == Ifd0 && t.id == TAG_GPS_IFD ==> r.gps == CapturedValue(t)
    ensures kind == ExifIfd && t.id == TAG_INTEROP_IFD ==> r.interop == CapturedValue(t)
  {
    if kind == Ifd0 then
      if t.id == TAG_EXIF_IFD then p.(exif := CapturedValue(t))
      else if t.id == TAG_GPS_IFD then p.(gps := CapturedValue(t))
      else p
    else if kind == ExifIfd then
      if t.id == TAG_INTEROP_IFD then p.(interop := CapturedValue(t))
      else p
    else p
  }

  /** Notices the pointers of all entries, in entry order. */
  function CaptureAll(kind: IfdKind, tags: seq<Tag>, p: Pointers): (r: Pointers)
    ensures kind != Ifd0 ==> r.exif == p.exif && r.gps == p.gps
    ensures kind != ExifIfd ==> r.interop == p.interop
    decreases |tags|
  {
    if |tags| == 0 then p else CaptureAll(kind, tags[1..], Capture(kind, tags[0], p))
  }

  /** The value of the last entry with the given id, or `dflt` when there is none. */
  function LastValue(tags: seq<Tag>, id: nat, dflt: nat): nat
    decreases |tags|
  {
    if |tags| == 0 then dflt
    else if tags[|tags| - 1].id == id then CapturedValue(tags[|tags| - 1])
    else LastValue(tags[..|tags| - 1], id, dflt)
  }

  /** Fetches the out-of-line payload of an entry: only when the payload is
      longer than four bytes and its offset is nonzero. A type other than
      the byte types is read element by element under a 16-bit counter,
      which never reaches a count of 2^16 or more: the loop reads on until
      the file ends, the outcome of which is the truncation error. */
  function Resolve(buf: seq<byte>, big: bool, t: Tag): (r: Result<Tag>)
    ensures r.Ok? ==> r.value == t.(data := r.value.data)
    ensures r.Ok? <==> t.size <= 4 || t.offset == 0 ||
                       (t.offset + t.size <= |buf| && (IsByteType(t.typ) || t.count < TWO16))
    ensures r.Fatal? ==> r.error == Truncated
    ensures r.Ok? && (t.size <= 4 || t.offset == 0) ==> r.value == t
    ensures r.Ok? && t.size > 4 && t.offset != 0 ==>
              && t.offset + t.size <= |buf|
              && r.value.data == Reorder(buf[t.offset..t.offset + t.size], PayloadUnit(t.typ), big)
  {
    if t.size > 4 && t.offset != 0 then
      if t.offset + t.size > |buf| then Fatal(Truncated)
      else if !IsByteType(t.typ) && t.count >= TWO16 then Fatal(Truncated)
      else Ok(t.(data := Reorder(buf[t.offset..t.offset + t.size], PayloadUnit(t.typ), big)))
    else Ok(t)
  }

  function ResolveAll(buf: seq<byte>, big: bool, tags: seq<Tag>): (r: Result<seq<Tag>>)
    ensures r.Ok? ==> |r.value| == |tags|
    decreases |tags|
  {
    if |tags| == 0 then Ok([])
    else
      var head :- Resolve(buf, big, tags[0]);
      var rest :- ResolveAll(buf, big, tags[1..]);
      Ok([head] + rest)
  }

  /** Resolving a list resolves each entry on its own. */
  lemma {:induction false} ResolveAllAt(buf: seq<byte>, big: bool, tags: seq<Tag>, i: nat)
    requires ResolveAll(buf, big, tags).Ok? && i < |tags|
    ensures Resolve(buf, big, tags[i]) == Ok(ResolveAll(buf, big, tags).value[i])
    decreases |tags|
  {
    if i > 0 {
      ResolveAllAt(buf, big, tags[1..], i - 1);
      assert tags[1..][i - 1] == tags[i];
    }
  }

  /** Reads the directory at `offs`: the entry count, the entries, the next
      pointer, then the out-of-line payloads. An empty directory ends at its
      count: nothing else is read and its next pointer is 0. */
  function ReadIfd(buf: seq<byte>, big: bool, kind: IfdKind, offs: nat, p: Pointers): (r: Result<(Ifd, Pointers)>)
    ensures offs + 2 > |buf| ==> r == Fatal(Truncated)
    ensures offs + 2 <= |buf| && Get16(buf, offs, big) == 0 ==> r == Ok((EmptyIfd(kind), p))
    ensures r.Ok? ==>
              && offs + 2 <= |buf|
              && r.value.0.kind == kind
              && r.value.0.count == Get16(buf, offs, big)
              && |r.value.0.tags| == r.value.0.count
    ensures r.Ok? && r.value.0.count > 0 ==>
              && offs + 2 + 12 * r.value.0.count + 4 <= |buf|
              && r.value.0.nextIfd == Get32(buf, offs + 2 + 12 * r.value.0.count, big)
    ensures r.Ok? && kind != Ifd0 ==> r.value.1.exif == p.exif && r.value.1.gps == p.gps
    ensures r.Ok? && kind != ExifIfd ==> r.value.1.interop == p.interop
  {
    if offs + 2 > |buf| then Fatal(Truncated)
    else
      var n := Get16(buf, offs, big);
      if n == 0 then Ok((EmptyIfd(kind), p))
      else
        var entries :- ReadEntries(buf, big, offs + 2, n);
        var captured := CaptureAll(kind, entries, p);
        var nextPos := offs + 2 + 12 * n;
        if nextPos + 4 > |buf| then Fatal(Truncated)
        else
          var next := Get32(buf, nextPos, big);
          var tags :- ResolveAll(buf, big, entries);
          Ok((Ifd(kind, n, next, tags), captured))
  }

  /** Reads a directory reached through a pointer, or nothing when the
      pointer is 0. */
  function ReadLinked(buf: seq<byte>, big: bool, kind: IfdKind, offs: nat, p: Pointers): (r: Result<(seq<Ifd>, Pointers)>)
    ensures offs == 0 ==> r == Ok(([], p))
    ensures r.Ok? ==> |r.value.0| == (if offs == 0 then 0 else 1)
    ensures r.Ok? ==> forall i :: 0 <= i < |r.value.0| ==> r.value.0[i].kind == kind
    ensures offs != 0 && r.Ok? ==>
              && ReadIfd(buf, big, kind, offs, p).Ok?
              && r.value == ([ReadIfd(buf, big, kind, offs, p).value.0], ReadIfd(buf, big, kind, offs, p).value.1)
  {
    if offs == 0 then Ok(([], p))
    else
      var d :- ReadIfd(buf, big, kind, offs, p);
      Ok(([d.0], d.1))
  }

  /** Reads the whole directory graph of a TIFF blob: the primary directory
      at the offset in header bytes 4..7, then the thumbnail directory it
      chains to, then the EXIF, GPS and Interoperability directories whose
      pointers were noticed, each only when its pointer is nonzero. */
  function ReadApp(tiff: seq<byte>, big: bool): (r: Result<App>)
    ensures |tiff| < 8 ==> r == Fatal(Truncated)
    ensures r.Ok? ==> 1 <= |r.value| <= 5 && r.value[0].kind == Ifd0
  {
    if |tiff| < 8 then Fatal(Truncated)
    else
      var r0 :- ReadIfd(tiff, big, Ifd0, Get32(tiff, 4, big), NO_POINTERS);
      var r1 :- ReadLinked(tiff, big, Ifd1, r0.0.nextIfd, r0.1);
      var r2 :- ReadLinked(tiff, big, ExifIfd, r1.1.exif, r1.1);
      var r3 :- ReadLinked(tiff, big, GpsIfd, r2.1.gps, r2.1);
      var r4 :- ReadLinked(tiff, big, InteropIfd, r3.1.interop, r3.1);
      Ok([r0.0] + r1.0 + r2.0 + r3.0 + r4.0)
  }

  /** The segment bytes "Exif\0\0". */
  const EXIF_MARKER: seq<byte> := [0x45, 0x78, 0x69, 0x66, 0, 0]
  const ORDER_II: seq<byte> := [0x49, 0x49]
  const ORDER_MM: seq<byte> := [0x4D, 0x4D]

  /** The header checks of exif_examine_app: the first four bytes, read as a
      little-endian 32-bit word, must be 0x66697845, the next 16-bit word 0,
      and the next 0x4949 (little-endian TIFF) or 0x4D4D (big-endian). */
  function CheckHeader(seg: seq<byte>): (r: Result<bool>)
    ensures r.Ok? <==> |seg| >= 8 && seg[..6] == EXIF_MARKER && (seg[6..8] == ORDER_II || seg[6..8] == ORDER_MM)
    ensures r.Ok? ==> (r.value <==> seg[6..8] == ORDER_MM)
  {
    if |seg| < 8 then Fatal(Truncated)
    else
      HeaderWords(seg);
      if LittleValue(seg[..4]) != 0x66697845 then Fatal(BadMagic)
      else if LittleValue(seg[4..6]) != 0 then Fatal(BadHeader)
      else
        var marker := LittleValue(seg[6..8]);
        if marker == 0x4949 then Ok(false)
        else if marker == 0x4D4D then Ok(true)
        else Fatal(BadByteOrder(marker))
  }

  /** The header words compared by the source are exactly the header bytes. */
  lemma HeaderWords(seg: seq<byte>)
    requires |seg| >= 8
    ensures LittleValue(seg[..4]) == 0x66697845 <==> seg[..4] == EXIF_MARKER[..4]
    ensures LittleValue(seg[4..6]) == 0 <==> seg[4..6] == EXIF_MARKER[4..]
    ensures LittleValue(seg[6..8]) == 0x4949 <==> seg[6..8] == ORDER_II
    ensures LittleValue(seg[6..8]) == 0x4D4D <==> seg[6..8] == ORDER_MM
  {
    LittleValueOf4(seg[..4]);
    LittleValueOf2(seg[4..6]);
    LittleValueOf2(seg[6..8]);
  }

  /** Checks the segment header and reads the TIFF blob that follows the six
      marker bytes; the result carries the byte order (true for "MM"). */
  function ExamineApp(seg: seq<byte>): (r: Result<(bool, App)>)
    ensures r.Ok? ==> CheckHeader(seg) == Ok(r.value.0) && ReadApp(seg[6..], r.value.0) == Ok(r.value.1)
    ensures CheckHeader(seg).Fatal? ==> r.Fatal?
  {
    var big :- CheckHeader(seg);
    var app :- ReadApp(seg[6..], big);
    Ok((big, app))
  }
}

/** Properties of the reader that relate several of its functions. */
module ReaderFacts {
  import opened Outcomes
  import opened Bytes
  import opened FieldTypes
  import opened Directory
  import opened Reader

  /** Tag `t` is what the 12-byte entry at `pos` decodes to: the size is
      width times count (in 32 bits); a value of at most four bytes is
      decoded from the entry itself and `original` is its first 32-bit word;
      a longer one keeps the entry's field as both `offset` and `original`,
      and its payload is fetched from that offset only when the offset is
      nonzero, otherwise it stays four zero bytes. */
  predicate DecodedAt(buf: seq<byte>, big: bool, pos: nat, t: Tag) {
    && pos + 12 <= |buf|
    && t.id == Get16(buf, pos, big)
    && t.typ == Get16(buf, pos + 2, big)
    && t.count == Get32(buf, pos + 4, big)
    && TypeSize(t.typ).Some?
    && t.size == EntrySize(t.typ, t.count)
    && (t.size <= 4 ==>
          && InlineUnit(t.typ).Some?
          && |t.data| == 4
          && t.data == Reorder(buf[pos + 8..pos + 12], InlineUnit(t.typ).value, big)
          && t.original == t.ToLong())
    && (t.size > 4 ==> t.offset == t.original == Get32(buf, pos + 8, big))
    && (t.size > 4 && t.offset != 0 ==>
          && t.offset + t.size <= |buf|
          && t.data == Reorder(buf[t.offset..t.offset + t.size], PayloadUnit(t.typ), big))
    && (t.size > 4 && t.offset == 0 ==> t.data == Zeros(4))
  }

  /** A non-empty directory that was read is its entries, resolved, with the
      next pointer that follows them. */
  lemma ReadIfdParts(buf: seq<byte>, big: bool, kind: IfdKind, offs: nat, p: Pointers)
    requires ReadIfd(buf, big, kind, offs, p).Ok?
    requires Get16(buf, offs, big) > 0
    ensures var n := Get16(buf, offs, big);
            && ReadEntries(buf, big, offs + 2, n).Ok?
            && ResolveAll(buf, big, ReadEntries(buf, big, offs + 2, n).value).Ok?
            && ReadIfd(buf, big, kind, offs, p).value.0.tags
               == ResolveAll(buf, big, ReadEntries(buf, big, offs + 2, n).value).value
            && ReadIfd(buf, big, kind, offs, p).value.1
               == CaptureAll(kind, ReadEntries(buf, big, offs + 2, n).value, p)
  {
  }

  /** Every tag of a directory that was read is decoded from its own entry,
      the `i`-th entry after the count. */
  lemma ReadIfdTag(buf: seq<byte>, big: bool, kind: IfdKind, offs: nat, p: Pointers, i: nat)
    requires ReadIfd(buf, big, kind, offs, p).Ok?
    requires i < |ReadIfd(buf, big, kind, offs, p).value.0.tags|
    ensures DecodedAt(buf, big, offs + 2 + 12 * i, ReadIfd(buf, big, kind, offs, p).value.0.tags[i])
  {
    var n := Get16(buf, offs, big);
    ReadIfdParts(buf, big, kind, offs, p);
    ResolvedEntryAt(buf, big, offs + 2, n, ResolveAll(buf, big, ReadEntries(buf, big, offs + 2, n).value).value, i);
  }

  /** Tag `i` of a resolved entry list is decoded from the `i`-th entry. */
  lemma ResolvedEntryAt(buf: seq<byte>, big: bool, pos: nat, n: nat, tags: seq<Tag>, i: nat)
    requires ReadEntries(buf, big, pos, n).Ok?
    requires ResolveAll(buf, big, ReadEntries(buf, big, pos, n).value) == Ok(tags)
    requires i < |tags|
    ensures DecodedAt(buf, big, pos + 12 * i, tags[i])
  {
    var entries := ReadEntries(buf, big, pos, n).value;
    ReadEntriesAt(buf, big, pos, n, i);
    ResolveAllAt(buf, big, entries, i);
    EntryThenResolve(buf, big, pos + 12 * i, entries[i], tags[i]);
  }

  lemma EntryThenResolve(buf: seq<byte>, big: bool, pos: nat, e: Tag, t: Tag)
    requires ReadEntry(buf, big, pos) == Ok(e)
    requires Resolve(buf, big, e) == Ok(t)
    ensures DecodedAt(buf, big, pos, t)
  {
    ResolvedPayload(buf, big, e, t);
  }

  lemma ResolvedPayload(buf: seq<byte>, big: bool, e: Tag, t: Tag)
    requires Resolve(buf, big, e) == Ok(t)
    ensures t == e.(data := t.data)
    ensures e.size > 4 && e.offset != 0 ==>
              && e.offset + e.size <= |buf|
              && t.data == Reorder(buf[e.offset..e.offset + e.size], PayloadUnit(e.typ), big)
    ensures e.size <= 4 || e.offset == 0 ==> t == e
  {
  }

  lemma {:induction false} CaptureAllSnoc(kind: IfdKind, tags: seq<Tag>, t: Tag, p: Pointers)
    ensures CaptureAll(kind, tags + [t], p) == Capture(kind, t, CaptureAll(kind, tags, p))
    decreases |tags|
  {
    if |tags| > 0 {
      assert (tags + [t])[1..] == tags[1..] + [t];
      CaptureAllSnoc(kind, tags[1..], t, Capture(kind, tags[0], p));
    }
  }

  /** Scanning the entries in order, the last entry carrying a pointer tag
      decides the captured offset. */
  lemma {:induction false} CaptureAllIsLast(kind: IfdKind, tags: seq<Tag>, p: Pointers)
    ensures kind == Ifd0 ==> CaptureAll(kind, tags, p).exif == LastValue(tags, TAG_EXIF_IFD, p.exif)
    ensures kind == Ifd0 ==> CaptureAll(kind, tags, p).gps == LastValue(tags, TAG_GPS_IFD, p.gps)
    ensures kind == ExifIfd ==> CaptureAll(kind, tags, p).interop == LastValue(tags, TAG_INTEROP_IFD, p.interop)
    decreases |tags|
  {
    if |tags| > 0 {
      var init := tags[..|tags| - 1];
      var last := tags[|tags| - 1];
      assert tags == init + [last];
      CaptureAllSnoc(kind, init, last, p);
      CaptureAllIsLast(kind, init, p);
    }
  }

  /** Capturing depends only on each entry's id and captured value. */
  lemma {:induction false} CaptureAllAgrees(kind: IfdKind, a: seq<Tag>, b: seq<Tag>, p: Pointers)
    requires |a| == |b|
    requires forall i :: 0 <= i < |a| ==> a[i].id == b[i].id && CapturedValue(a[i]) == CapturedValue(b[i])
    ensures CaptureAll(kind, a, p) == CaptureAll(kind, b, p)
    decreases |a|
  {
    if |a| > 0 {
      assert Capture(kind, a[0], p) == Capture(kind, b[0], p);
      CaptureAllAgrees(kind, a[1..], b[1..], Capture(kind, a[0], p));
    }
  }

  /** The pointers a directory read yields are those its tags carry, the
      last occurrence of each pointer tag winning; only the primary
      directory yields EXIF and GPS offsets, only the EXIF directory an
      Interoperability offset. */
  lemma ReadIfdPointers(buf: seq<byte>, big: bool, kind: IfdKind, offs: nat, p: Pointers)
    requires ReadIfd(buf, big, kind, offs, p).Ok?
    ensures var (d, q) := ReadIfd(buf, big, kind, offs, p).value;
            && q.exif == (if kind == Ifd0 then LastValue(d.tags, TAG_EXIF_IFD, p.exif) else p.exif)
            && q.gps == (if kind == Ifd0 then LastValue(d.tags, TAG_GPS_IFD, p.gps) else p.gps)
            && q.interop == (if kind == ExifIfd then LastValue(d.tags, TAG_INTEROP_IFD, p.interop) else p.interop)
  {
    var n := Get16(buf, offs, big);
    if n > 0 {
      var entries := ReadEntries(buf, big, offs + 2, n).value;
      var tags := ResolveAll(buf, big, entries).value;
      assert ReadIfd(buf, big, kind, offs, p).value == (Ifd(kind, n, Get32(buf, offs + 2 + 12 * n, big), tags), CaptureAll(kind, entries, p));
      forall i | 0 <= i < |entries|
        ensures entries[i].id == tags[i].id && CapturedValue(entries[i]) == CapturedValue(tags[i])
      {
        ResolveAllAt(buf, big, entries, i);
      }
      CaptureAllAgrees(kind, entries, tags, p);
      CaptureAllIsLast(kind, tags, p);
    }
  }

  /** Appending the (at most one) directory read through a pointer keeps
      the kinds ascending. */
  lemma AppendLinked(app: App, l: seq<Ifd>, kind: IfdKind)
    requires SortedKinds(app)
    requires forall i :: 0 <= i < |app| ==> app[i].kind.Nr() < kind.Nr()
    requires |l| <= 1 && forall i :: 0 <= i < |l| ==> l[i].kind == kind
    ensures SortedKinds(app + l)
    ensures forall i :: 0 <= i < |app + l| ==> (app + l)[i].kind.Nr() <= kind.Nr()
  {
  }

  lemma HasKindConcat(a: App, b: App, k: IfdKind)
    ensures HasKind(a + b, k) <==> HasKind(a, k) || HasKind(b, k)
  {
    if HasKind(a + b, k) {
      var i :| 0 <= i < |a + b| && (a + b)[i].kind == k;
      if i >= |a| {
        assert b[i - |a|] == (a + b)[i];
      }
    }
    if HasKind(a, k) {
      var i :| 0 <= i < |a| && a[i].kind == k;
      assert (a + b)[i] == a[i];
    }
    if HasKind(b, k) {
      var i :| 0 <= i < |b| && b[i].kind == k;
      assert (a + b)[|a| + i] == b[i];
    }
  }

  lemma FindIfdPrefix(a: App, b: App, kind: IfdKind)
    requires HasKind(a, kind)
    ensures FindIfd(a + b, kind) == FindIfd(a, kind)
  {
    if a[0].kind != kind {
      assert (a + b)[1..] == a[1..] + b;
      FindIfdPrefix(a[1..], b, kind);
    }
  }

  predicate OfKind(l: seq<Ifd>, kind: IfdKind) {
    |l| <= 1 && forall i :: 0 <= i < |l| ==> l[i].kind == kind
  }

  lemma AssembledSorted(d0: Ifd, l1: seq<Ifd>, l2: seq<Ifd>, l3: seq<Ifd>, l4: seq<Ifd>)
    requires d0.kind == Ifd0
    requires OfKind(l1, Ifd1) && OfKind(l2, ExifIfd) && OfKind(l3, GpsIfd) && OfKind(l4, InteropIfd)
    ensures SortedKinds([d0] + l1 + l2 + l3 + l4)
  {
    var a0: App := [d0];
    AppendLinked(a0, l1, Ifd1);
    AppendLinked(a0 + l1, l2, ExifIfd);
    AppendLinked(a0 + l1 + l2, l3, GpsIfd);
    AppendLinked(a0 + l1 + l2 + l3, l4, InteropIfd);
  }

  lemma AssembledHas(d0: Ifd, l1: seq<Ifd>, l2: seq<Ifd>, l3: seq<Ifd>, l4: seq<Ifd>, k: IfdKind)
    requires d0.kind == Ifd0
    requires OfKind(l1, Ifd1) && OfKind(l2, ExifIfd) && OfKind(l3, GpsIfd) && OfKind(l4, InteropIfd)
    ensures HasKind([d0] + l1 + l2 + l3 + l4, k) <==>
              || k == Ifd0
              || (k == Ifd1 && |l1| == 1)
              || (k == ExifIfd && |l2| == 1)
              || (k == GpsIfd && |l3| == 1)
              || (k == InteropIfd && |l4| == 1)
  {
    var a0: App := [d0];
    assert HasKind(a0, k) <==> k == Ifd0 by {
      if k == Ifd0 { assert a0[0].kind == k; }
    }
    HasKindConcat(a0, l1, k);
    HasKindConcat(a0 + l1, l2, k);
    HasKindConcat(a0 + l1 + l2, l3, k);
    HasKindConcat(a0 + l1 + l2 + l3, l4, k);
    if |l1| == 1 && k == Ifd1 { assert l1[0].kind == k; }
    if |l2| == 1 && k == ExifIfd { assert l2[0].kind == k; }
    if |l3| == 1 && k == GpsIfd { assert l3[0].kind == k; }
    if |l4| == 1 && k == InteropIfd { assert l4[0].kind == k; }
  }

  lemma AssembledExif(d0: Ifd, l1: seq<Ifd>, l2: seq<Ifd>, l3: seq<Ifd>, l4: seq<Ifd>)
    requires d0.kind == Ifd0
    requires OfKind(l1, Ifd1) && OfKind(l2, ExifIfd)
    requires |l2| == 1
    ensures HasKind([d0] + l1 + l2 + l3 + l4, ExifIfd)
    ensures IfdAt([d0] + l1 + l2 + l3 + l4, ExifIfd) == l2[0]
  {
    var a2: App := [d0] + l1 + l2;
    assert a2[|a2| - 1] == l2[0];
    assert FindIfd(a2, ExifIfd) == Some(|a2| - 1) by {
      assert forall j :: 0 <= j < |a2| - 1 ==> a2[j].kind != ExifIfd by {
        forall j | 0 <= j < |a2| - 1 ensures a2[j].kind != ExifIfd {
          if j > 0 { assert a2[j] == l1[j - 1]; }
        }
      }
    }
    assert [d0] + l1 + l2 + l3 + l4 == a2 + (l3 + l4);
    FindIfdPrefix(a2, l3 + l4, ExifIfd);
  }

  /** The shape of a graph that was read: the primary directory first, then
      at most one directory of each other kind in ascending kind order; the
      thumbnail directory exactly when the primary one chains to it, the
      EXIF and GPS directories exactly when the primary one carries a
      nonzero pointer to them, the Interoperability directory exactly when
      the EXIF directory carries a nonzero pointer to it. */
  lemma ReadAppShape(tiff: seq<byte>, big: bool)
    requires ReadApp(tiff, big).Ok?
    ensures var app := ReadApp(tiff, big).value;
            && |app| >= 1
            && ReadIfd(tiff, big, Ifd0, Get32(tiff, 4, big), NO_POINTERS).Ok?
            && app[0] == ReadIfd(tiff, big, Ifd0, Get32(tiff, 4, big), NO_POINTERS).value.0
            && SortedKinds(app)
            && (HasKind(app, Ifd1) <==> app[0].nextIfd != 0)
            && (HasKind(app, ExifIfd) <==> LastValue(app[0].tags, TAG_EXIF_IFD, 0) != 0)
            && (HasKind(app, GpsIfd) <==> LastValue(app[0].tags, TAG_GPS_IFD, 0) != 0)
            && (HasKind(app, InteropIfd) <==>
                  HasKind(app, ExifIfd) && LastValue(IfdAt(app, ExifIfd).tags, TAG_INTEROP_IFD, 0) != 0)
  {
    var r0 := ReadIfd(tiff, big, Ifd0, Get32(tiff, 4, big), NO_POINTERS).value;
    var r1 := ReadLinked(tiff, big, Ifd1, r0.0.nextIfd, r0.1).value;
    var r2 := ReadLinked(tiff, big, ExifIfd, r1.1.exif, r1.1).value;
    var r3 := ReadLinked(tiff, big, GpsIfd, r2.1.gps, r2.1).value;
    var r4 := ReadLinked(tiff, big, InteropIfd, r3.1.interop, r3.1).value;
    assert ReadApp(tiff, big).value == [r0.0] + r1.0 + r2.0 + r3.0 + r4.0;
    ReadIfdPointers(tiff, big, Ifd0, Get32(tiff, 4, big), NO_POINTERS);
    if r0.0.nextIfd != 0 {
      ReadIfdPointers(tiff, big, Ifd1, r0.0.nextIfd, r0.1);
    }
    if r1.1.exif != 0 {
      ReadIfdPointers(tiff, big, ExifIfd, r1.1.exif, r1.1);
    }
    AssembledShape(r0.0, r0.1, r1.0, r1.1, r2.0, r2.1, r3.0, r4.0);
  }

  lemma AssembledShape(d0: Ifd, p0: Pointers, l1: seq<Ifd>, p1: Pointers, l2: seq<Ifd>, p2: Pointers,
                       l3: seq<Ifd>, l4: seq<Ifd>)
    requires d0.kind == Ifd0
    requires p0 == Pointers(LastValue(d0.tags, TAG_EXIF_IFD, 0), LastValue(d0.tags, TAG_GPS_IFD, 0), 0)
    requires |l1| == (if d0.nextIfd == 0 then 0 else 1) && OfKind(l1, Ifd1)
    requires p1 == p0
    requires |l2| == (if p1.exif == 0 then 0 else 1) && OfKind(l2, ExifIfd)
    requires p2.exif == p1.exif && p2.gps == p1.gps
    requires p2.interop == (if |l2| == 0 then 0 else LastValue(l2[0].tags, TAG_INTEROP_IFD, 0))
    requires |l3| == (if p2.gps == 0 then 0 else 1) && OfKind(l3, GpsIfd)
    requires |l4| == (if p2.interop == 0 then 0 else 1) && OfKind(l4, InteropIfd)
    ensures var app := [d0] + l1 + l2 + l3 + l4;
            && SortedKinds(app)
            && (HasKind(app, Ifd1) <==> d0.nextIfd != 0)
            && (HasKind(app, ExifIfd) <==> LastValue(d0.tags, TAG_EXIF_IFD, 0) != 0)
            && (HasKind(app, GpsIfd) <==> LastValue(d0.tags, TAG_GPS_IFD, 0) != 0)
            && (HasKind(app, InteropIfd) <==>
                  HasKind(app, ExifIfd) && LastValue(IfdAt(app, ExifIfd).tags, TAG_INTEROP_IFD, 0) != 0)
  {
    AssembledSorted(d0, l1, l2, l3, l4);
    AssembledHas(d0, l1, l2, l3, l4, Ifd1);
    AssembledHas(d0, l1, l2, l3, l4, ExifIfd);
    AssembledHas(d0, l1, l2, l3, l4, GpsIfd);
    AssembledHas(d0, l1, l2, l3, l4, InteropIfd);
    if |l2| == 1 {
      AssembledExif(d0, l1, l2, l3, l4);
    }
  }
}
