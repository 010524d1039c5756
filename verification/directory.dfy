/** The in-memory tag and directory model (ExifTag, ExifIfd) and the lookups
    over it (exif_find_ifd, exif_find_tag).

    The source keeps the directories of the EXIF segment under edit in a
    global; here they are an explicit `App` value passed to every operation.
 */
module Directory {
  import opened Outcomes
  import opened Bytes

  /** The directory kinds, numbered as the source numbers them; the write
      path sorts directories by this number. */
  datatype IfdKind = Ifd0 | Ifd1 | ExifIfd | GpsIfd | InteropIfd {
    function Nr(): (n: nat)
      ensures n <= 4
    {
      match this
      case Ifd0 => 0
      case Ifd1 => 1
      case ExifIfd => 2
      case GpsIfd => 3
      case InteropIfd => 4
    }
  }

  /** Pointer tags of Exif 2.3 (CIPA DC-008) section 4.6 and the thumbnail
      tags of TIFF 6.0. */
  const TAG_EXIF_IFD: nat := 0x8769
  const TAG_GPS_IFD: nat := 0x8825
  const TAG_INTEROP_IFD: nat := 0xA005
  const TAG_JPEG_OFFSET: nat := 0x0201
  const TAG_JPEG_SIZE: nat := 0x0202
  const TAG_GPS_VERSION: nat := 0x0000

  /** One directory entry. `size` is the payload length in bytes, `offset`
      where an out-of-line payload was (or will be) placed, `original` the
      raw 32-bit value-or-offset field as read, and `data` the payload in
      host byte order (at least four bytes in every tag the source builds). */
  datatype Tag = Tag(id: nat, typ: nat, count: nat, size: nat, offset: nat, original: nat, data: seq<byte>)
  {
    /** The first four payload bytes read as a host-order 32-bit value
        (ExifTag::toLong). */
    function ToLong(): (v: nat)
      requires |data| >= 4
      ensures v < TWO32
    {
      LittleValue(data[..4])
    }
  }

  /** One directory: its kind, the explicit 16-bit entry count, the chain
      pointer and the entries. */
  datatype Ifd = Ifd(kind: IfdKind, count: nat, nextIfd: nat, tags: seq<Tag>)

  type App = seq<Ifd>

  function EmptyIfd(kind: IfdKind): (d: Ifd)
    ensures d.kind == kind && d.tags == [] && d.count == 0 && d.nextIfd == 0
  {
    Ifd(kind, 0, 0, [])
  }

  predicate HasKind(app: App, kind: IfdKind) {
    exists i :: 0 <= i < |app| && app[i].kind == kind
  }

  /** The first directory of the given kind (exif_find_ifd). */
  function FindIfd(app: App, kind: IfdKind): (r: Option<nat>)
    ensures r.Some? ==> r.value < |app| && app[r.value].kind == kind
    ensures r.Some? ==> forall j :: 0 <= j < r.value ==> app[j].kind != kind
    ensures r.None? <==> !HasKind(app, kind)
  {
    if |app| == 0 then None
    else if app[0].kind == kind then Some(0)
    else match FindIfd(app[1..], kind)
      case None => None
      case Some(i) => Some(i + 1)
  }

  predicate HasTag(tags: seq<Tag>, id: nat) {
    exists i :: 0 <= i < |tags| && tags[i].id == id
  }

  /** The position of the first entry with the given id. */
  function FindTagIndex(tags: seq<Tag>, id: nat): (r: Option<nat>)
    ensures r.Some? ==> r.value < |tags| && tags[r.value].id == id
    ensures r.Some? ==> forall j :: 0 <= j < r.value ==> tags[j].id != id
    ensures r.None? <==> !HasTag(tags, id)
  {
    if |tags| == 0 then None
    else if tags[0].id == id then Some(0)
    else match FindTagIndex(tags[1..], id)
      case None => None
      case Some(i) => Some(i + 1)
  }

  /** The first entry with the given id in a directory's list. */
  function LookupTag(tags: seq<Tag>, id: nat): (r: Option<Tag>)
    ensures r.Some? <==> HasTag(tags, id)
    ensures r.Some? ==> r.value.id == id && r.value in tags
  {
    match FindTagIndex(tags, id)
    case None => None
    case Some(j) => Some(tags[j])
  }

  /** The first directory of the given kind, which must exist. */
  function IfdAt(app: App, kind: IfdKind): (d: Ifd)
    requires HasKind(app, kind)
    ensures d.kind == kind && d in app
  {
    app[FindIfd(app, kind).value]
  }

  /** The first entry with the given id in the first directory of the given
      kind (exif_find_tag); None when either is missing. */
  function FindTag(app: App, kind: IfdKind, id: nat): (r: Option<Tag>)
    ensures r.Some? <==> HasKind(app, kind) && HasTag(IfdAt(app, kind).tags, id)
    ensures r.Some? ==> r.value.id == id && r.value in IfdAt(app, kind).tags
  {
    if HasKind(app, kind) then LookupTag(IfdAt(app, kind).tags, id) else None
  }

  /** Tag ids are unique within a directory. */
  predicate UniqueIds(tags: seq<Tag>) {
    forall i, j :: 0 <= i < j < |tags| ==> tags[i].id != tags[j].id
  }

  /** Each directory kind occurs at most once. */
  predicate UniqueKinds(app: App) {
    forall i, j :: 0 <= i < j < |app| ==> app[i].kind != app[j].kind
  }

  /** Directories appear in ascending kind order, so each kind at most once. */
  predicate SortedKinds(app: App) {
    forall i, j :: 0 <= i < j < |app| ==> app[i].kind.Nr() < app[j].kind.Nr()
  }

  /** With unique ids, the lookup finds exactly the entry carrying the id. */
  lemma FindTagIndexUnique(tags: seq<Tag>, id: nat, k: nat)
    requires UniqueIds(tags)
    requires k < |tags| && tags[k].id == id
    ensures FindTagIndex(tags, id) == Some(k)
  {
  }
}
