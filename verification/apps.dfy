/** The layout half of exif_write_apps for the EXIF segment: the GPS
    pointer and version tags are put in place, the directories sorted by
    number, every sub-directory pointer set to the offset its directory
    will be written at, the thumbnail offset updated, each directory's
    entries sorted by id, and the TIFF image written: header, directories,
    four zero bytes, thumbnail.

    The running offset `len` is a uint16_t in the source; every addition to
    it is taken modulo 2^16 here.
 */
module AppWriter {
  import opened Outcomes
  import opened Bytes
  import opened FieldTypes
  import opened Directory
  import opened Mutation
  import opened MutationFacts
  import opened Setters
  import opened Writer
  import opened Reader
  import opened Sorting
  import opened Footprints
  import opened Chains

  /** writer_gps_tag_version: GPS version 2.0.0.0. */
  const GPS_VERSION: seq<byte> := [2, 0, 0, 0]

  /** The offset of the first directory, announced in the header. */
  const FIRST_IFD: nat := 8

  /** The running offset `len` advanced by `n` bytes; `len` is a uint16_t,
      so the sum wraps. */
  function Advance(len: nat, n: nat): (r: nat)
    ensures r < TWO16
  {
    (len + n) % TWO16
  }

  /** The sort key of exif_sort_ifds_cb. */
  function IfdNr(d: Ifd): int {
    d.kind.Nr()
  }

  /** The tag that points at a sub-directory: the directory holding it and
      its id. IFD0 and IFD1 have no pointer tag (IFD1 hangs off IFD0's
      next pointer). */
  function PointerTag(k: IfdKind): (r: Option<(IfdKind, nat)>)
    ensures r.Some? ==> r.value.0 != k && r.value.0.Nr() < k.Nr()
  {
    match k
    case GpsIfd => Some((Ifd0, TAG_GPS_IFD))
    case ExifIfd => Some((Ifd0, TAG_EXIF_IFD))
    case InteropIfd => Some((ExifIfd, TAG_INTEROP_IFD))
    case _ => None
  }

  /** The directory kinds of `b` are those of `a`, position by position. */
  predicate SameKinds(a: App, b: App) {
    |a| == |b| && forall j {:trigger a[j], b[j]} :: 0 <= j < |a| ==> a[j].kind == b[j].kind
  }

  /** The directories the pointer pass stores into are present. When one is
      missing the source's put appends a directory to the list its loop is
      walking, which C++ leaves undefined. */
  predicate PassTargets(app: App) {
    HasKind(app, Ifd0) && (HasKind(app, InteropIfd) ==> HasKind(app, ExifIfd))
  }

  /** A store into a present directory keeps the list of kinds. */
  lemma PutLongKeepsKinds(app: App, kind: IfdKind, id: nat, val: int)
    requires HasKind(app, kind)
    ensures SameKinds(app, PutLong(app, kind, id, 0, val))
  {
  }

  lemma SameKindsKeepTargets(a: App, b: App)
    requires SameKinds(a, b) && PassTargets(a)
    ensures PassTargets(b)
  {
    KindsDecideFind(a, b, Ifd0);
    KindsDecideFind(a, b, ExifIfd);
    KindsDecideFind(a, b, InteropIfd);
  }

  /** Every directory is sound. */
  predicate AllSound(app: App) {
    forall j :: 0 <= j < |app| ==> Sound(app[j])
  }

  /** Every directory has distinct entry ids. */
  predicate AllUnique(app: App) {
    forall j :: 0 <= j < |app| ==> UniqueIds(app[j].tags)
  }

  /** Every directory of the kind has room for one more entry under the
      16-bit entry count. */
  predicate Roomy(app: App, kind: IfdKind) {
    forall j :: 0 <= j < |app| && app[j].kind == kind ==> |app[j].tags| < 0xFFFF
  }

  /** `b` places its directories as `a` does: same kinds, same sizes. */
  predicate SameSizes(a: App, b: App) {
    SameKinds(a, b) && forall j :: 0 <= j < |a| ==> Footprint(a[j]) == Footprint(b[j])
  }

  /** The pointer tag of every sub-directory present is in place. */
  predicate PointersPresent(app: App) {
    forall k :: PointerTag(k).Some? && HasKind(app, k) ==> FindTag(app, PointerTag(k).value.0, PointerTag(k).value.1).Some?
  }

  /** `r` differs from `app` in slot `i` alone, which holds the first
      directory of the kind, existing or appended. */
  predicate OneSlot(app: App, r: App, kind: IfdKind, i: nat) {
    && i < |r| && i <= |app| && |r| == (if i < |app| then |app| else |app| + 1)
    && r[i].kind == kind
    && (i < |app| ==> FindIfd(app, kind) == Some(i))
    && (i == |app| ==> !HasKind(app, kind))
    && forall j :: 0 <= j < |r| && j != i ==> j < |app| && r[j] == app[j]
  }

  /** The directory a store starts from in slot `i`. */
  function SlotBefore(app: App, kind: IfdKind, i: nat): Ifd
    requires i <= |app|
  {
    if i < |app| then app[i] else EmptyIfd(kind)
  }

  /** Where exif_put_value lands: one slot changes, by PutInIfd. */
  lemma PutSlot(app: App, kind: IfdKind, id: nat, typ: nat, count: int, index: int, data: Option<seq<byte>>)
    returns (i: nat)
    requires PutFits(typ, count, index, data) && TypeSize(typ).Some?
    ensures var r := PutValue(app, kind, id, typ, count, index, data).value;
            && OneSlot(app, r, kind, i)
            && r[i] == PutInIfd(SlotBefore(app, kind, i), id, typ, count, index, data)
  {
    var base := Target(app, kind);
    var r := PutValue(app, kind, id, typ, count, index, data).value;
    i := FindIfd(base, kind).value;
    KindsDecideFind(base, r, kind);
    assert i < |app| ==> base[i] == app[i];
    assert i == |app| ==> base[i] == EmptyIfd(kind);
    if HasKind(app, kind) {
      assert i < |app|;
    }
  }

  /** What a one-slot change keeps, given what it keeps in the slot. */
  lemma OneSlotKeeps(app: App, r: App, kind: IfdKind, i: nat)
    requires OneSlot(app, r, kind, i)
    ensures AllSound(app) && Sound(r[i]) ==> AllSound(r)
    ensures AllUnique(app) && UniqueIds(r[i].tags) ==> AllUnique(r)
    ensures UniqueKinds(app) ==> UniqueKinds(r)
    ensures forall k :: k != kind && Roomy(app, k) ==> Roomy(r, k)
    ensures i < |app| && Footprint(r[i]) == Footprint(app[i]) ==> SameSizes(app, r)
  {
    if UniqueKinds(app) {
      forall a, b | 0 <= a < b < |r| ensures r[a].kind != r[b].kind {
        if b == i && i == |app| {
          assert r[a] == app[a];
        }
      }
    }
  }

  /** exif_put_value of four bytes at element 0 on the whole list: sound
      directories stay sound, ids and kinds stay distinct, other kinds keep
      their room, and a store into an entry already present moves nothing. */
  lemma PutFourKeeps(app: App, kind: IfdKind, id: nat, typ: nat, count: nat, bytes: seq<byte>)
    requires TypeSize(typ).Some? && count * TypeSize(typ).value == 4 && !IsRational(typ) && |bytes| == 4
    requires AllSound(app) && (FindTag(app, kind, id).Some? || Roomy(app, kind))
    ensures PutFits(typ, count, 0, Some(bytes))
    ensures var r := PutValue(app, kind, id, typ, count, 0, Some(bytes)).value;
            && AllSound(r)
            && (AllUnique(app) ==> AllUnique(r))
            && (UniqueKinds(app) ==> UniqueKinds(r))
            && (forall k :: k != kind && Roomy(app, k) ==> Roomy(r, k))
            && (FindTag(app, kind, id).Some? ==> SameSizes(app, r))
  {
    var w := TypeSize(typ).value;
    assert PutFits(typ, count, 0, Some(bytes));
    var i := PutSlot(app, kind, id, typ, count, 0, Some(bytes));
    var before := SlotBefore(app, kind, i);
    PutFourSound(before, id, typ, count, bytes);
    OneSlotKeeps(app, PutValue(app, kind, id, typ, count, 0, Some(bytes)).value, kind, i);
  }

  /** One step of the pointer loop (exif.cc:1240-1246): the pointer tag of
      directory `i`, if it has one, receives `len`. */
  function PointerStep(app: App, i: nat, len: nat): (r: App)
    requires i < |app| && PassTargets(app)
    ensures SameKinds(app, r)
  {
    match PointerTag(app[i].kind)
    case None => app
    case Some((home, id)) =>
      assert HasKind(app, app[i].kind);
      PutLongKeepsKinds(app, home, id, len);
      PutLong(app, home, id, 0, len)
  }

  /** The pointer loop from directory `i` on, with the running 16-bit
      offset `len` (exif.cc:1237-1249). Returns the updated directories and
      the offset past the last one. */
  function PointerPass(app: App, i: nat, len: nat): (r: (App, nat))
    requires i <= |app| && PassTargets(app) && len < TWO16
    ensures SameKinds(app, r.0) && r.1 < TWO16
    decreases |app| - i
  {
    if i == |app| then (app, len)
    else
      var next := PointerStep(app, i, len);
      SameKindsKeepTargets(app, next);
      var r := PointerPass(next, i + 1, Advance(len, IfdSize(app[i])));
      r
  }

  /** One turn of the pointer loop. */
  lemma PassUnfold(app: App, i: nat, len: nat)
    requires i < |app| && PassTargets(app) && len < TWO16
    ensures PassTargets(PointerStep(app, i, len))
    ensures PointerPass(app, i, len) == PointerPass(PointerStep(app, i, len), i + 1, Advance(len, IfdSize(app[i])))
  {
    SameKindsKeepTargets(app, PointerStep(app, i, len));
  }

  /** exif_put_long into an entry already present moves nothing. */
  lemma PutLongKeeps(app: App, kind: IfdKind, id: nat, val: int)
    requires AllSound(app) && FindTag(app, kind, id).Some?
    ensures var r := PutLong(app, kind, id, 0, val);
            && AllSound(r) && SameSizes(app, r)
            && (AllUnique(app) ==> AllUnique(r))
            && (UniqueKinds(app) ==> UniqueKinds(r))
  {
    PutFourKeeps(app, kind, id, LONG, 1, LittleEndian(val % TWO32, 4));
  }

  /** What the pointer stores keep of `a` in `r`: sound directories of the
      same sizes, every pointer tag in place, distinct ids and kinds. */
  predicate Keeps(a: App, r: App) {
    && AllSound(r) && SameSizes(a, r) && PointersPresent(r)
    && (AllUnique(a) ==> AllUnique(r)) && (UniqueKinds(a) ==> UniqueKinds(r))
  }

  lemma KeepsTrans(a: App, b: App, c: App)
    requires Keeps(a, b) && Keeps(b, c)
    ensures Keeps(a, c)
  {
    SameSizesTrans(a, b, c);
  }

  /** A pointer store keeps the directories sound, their sizes, and every
      pointer tag in place. */
  lemma PointerStepKeeps(app: App, i: nat, len: nat)
    requires i < |app| && PassTargets(app) && AllSound(app) && PointersPresent(app)
    ensures Keeps(app, PointerStep(app, i, len))
  {
    match PointerTag(app[i].kind)
    case None =>
    case Some((home, id)) =>
      assert HasKind(app, app[i].kind);
      PutLongKeeps(app, home, id, len);
      PutLongPointers(app, home, id, len);
  }

  /** A store into one pointer tag leaves every pointer tag in place. */
  lemma PutLongPointers(app: App, home: IfdKind, id: nat, len: nat)
    requires PointersPresent(app) && HasKind(app, home)
    ensures PointersPresent(PutLong(app, home, id, 0, len))
  {
    var r := PutLong(app, home, id, 0, len);
    PutLongKeepsKinds(app, home, id, len);
    forall k | PointerTag(k).Some? && HasKind(r, k)
      ensures FindTag(r, PointerTag(k).value.0, PointerTag(k).value.1).Some?
    {
      KindsDecideFind(app, r, k);
      var (h, other) := PointerTag(k).value;
      if (h, other) != (home, id) {
        assert FindTag(r, h, other) == FindTag(app, h, other);
      }
    }
  }

  /** The whole pointer loop keeps the same. */
  lemma {:induction false} PassKeeps(app: App, i: nat, len: nat)
    requires i <= |app| && PassTargets(app) && len < TWO16 && AllSound(app) && PointersPresent(app)
    ensures Keeps(app, PointerPass(app, i, len).0)
    decreases |app| - i
  {
    if i < |app| {
      var next := PointerStep(app, i, len);
      var len' := Advance(len, IfdSize(app[i]));
      assert PassTargets(next) && Keeps(app, next) by {
        PointerStepKeeps(app, i, len);
        SameKindsKeepTargets(app, next);
      }
      PassUnfold(app, i, len);
      PassKeeps(next, i + 1, len');
      KeepsTrans(app, next, PointerPass(next, i + 1, len').0);
    } else {
      assert SameSizes(app, app);
    }
  }

  lemma SameSizesTrans(a: App, b: App, c: App)
    requires SameSizes(a, b) && SameSizes(b, c)
    ensures SameSizes(a, c)
  {
    SameKindsTrans(a, b, c);
  }

  /** exif.cc:1232-1233: the GPS pointer tag is put (0 for now) and the
      GPS version tag written. */
  function GpsPuts(app: App): (r: App)
    ensures FindTag(r, GpsIfd, TAG_GPS_VERSION).Some?
    ensures |FindTag(r, GpsIfd, TAG_GPS_VERSION).value.data| >= 4
    ensures FindTag(r, GpsIfd, TAG_GPS_VERSION).value.data[..4] == GPS_VERSION
  {
    var withPointer := PutLong(app, Ifd0, TAG_GPS_IFD, 0, 0);
    PrepareFits();
    VersionStored(withPointer);
    PutValue(withPointer, GpsIfd, TAG_GPS_VERSION, BYTE, 4, 0, Some(GPS_VERSION)).value
  }

  lemma PrepareFits()
    ensures PutFits(BYTE, 4, 0, Some(GPS_VERSION)) && TypeSize(BYTE) == Some(1)
  {
  }

  /** The version put leaves the four version bytes in the GPS directory. */
  lemma VersionStored(app: App)
    ensures PutFits(BYTE, 4, 0, Some(GPS_VERSION))
    ensures var r := PutValue(app, GpsIfd, TAG_GPS_VERSION, BYTE, 4, 0, Some(GPS_VERSION)).value;
            && FindTag(r, GpsIfd, TAG_GPS_VERSION).Some?
            && |FindTag(r, GpsIfd, TAG_GPS_VERSION).value.data| >= 4
            && FindTag(r, GpsIfd, TAG_GPS_VERSION).value.data[..4] == GPS_VERSION
  {
    assert TypeSize(BYTE) == Some(1) && StoreLen(BYTE, 1, 4) == 4;
    assert PutSize(1, 4, 0, Some(GPS_VERSION)) == 4;
    PutValueThenFind(app, GpsIfd, TAG_GPS_VERSION, BYTE, 4, 0, Some(GPS_VERSION));
    assert GPS_VERSION[..4] == GPS_VERSION;
  }

  /** The kinds after the GPS puts: those before, IFD0 and the GPS directory. */
  lemma GpsPutsKinds(app: App, k: IfdKind)
    ensures HasKind(GpsPuts(app), k) <==> HasKind(app, k) || k == Ifd0 || k == GpsIfd
  {
    PrepareFits();
    KindKeptByPut(app, Ifd0, TAG_GPS_IFD, LONG, 1, 0, Some(LittleEndian(0 % TWO32, 4)), k);
    KindKeptByPut(PutLong(app, Ifd0, TAG_GPS_IFD, 0, 0), GpsIfd, TAG_GPS_VERSION, BYTE, 4, 0, Some(GPS_VERSION), k);
  }

  /** exif.cc:1232-1235: the GPS puts, then the directories sorted by number. */
  function Prepare(app: App): (r: App)
    requires HasKind(app, InteropIfd) ==> HasKind(app, ExifIfd)
    ensures PassTargets(r) && HasKind(r, GpsIfd)
  {
    PrepareKinds(app);
    SortBy(GpsPuts(app), IfdNr)
  }

  /** The kinds present after the GPS puts, and so after the sort. */
  lemma PrepareKinds(app: App)
    requires HasKind(app, InteropIfd) ==> HasKind(app, ExifIfd)
    ensures PassTargets(SortBy(GpsPuts(app), IfdNr)) && HasKind(SortBy(GpsPuts(app), IfdNr), GpsIfd)
  {
    var w := GpsPuts(app);
    GpsPutsKinds(app, Ifd0);
    GpsPutsKinds(app, GpsIfd);
    GpsPutsKinds(app, ExifIfd);
    GpsPutsKinds(app, InteropIfd);
    SortKeepsKinds(w, Ifd0);
    SortKeepsKinds(w, GpsIfd);
    SortKeepsKinds(w, ExifIfd);
    SortKeepsKinds(w, InteropIfd);
  }

  /** A put adds at most the directory it stores into. */
  lemma KindKeptByPut(app: App, kind: IfdKind, id: nat, typ: nat, count: int, index: int, data: Option<seq<byte>>,
                      k: IfdKind)
    requires PutFits(typ, count, index, data) && TypeSize(typ).Some?
    ensures HasKind(PutValue(app, kind, id, typ, count, index, data).value, k) <==> HasKind(app, k) || k == kind
  {
    var i := PutSlot(app, kind, id, typ, count, index, data);
    OneSlotKinds(app, PutValue(app, kind, id, typ, count, index, data).value, kind, i, k);
  }

  lemma OneSlotKinds(app: App, r: App, kind: IfdKind, i: nat, k: IfdKind)
    requires OneSlot(app, r, kind, i)
    ensures HasKind(r, k) <==> HasKind(app, k) || k == kind
  {
    if HasKind(app, k) {
      var j :| 0 <= j < |app| && app[j].kind == k;
      if j != i {
        assert r[j] == app[j];
      }
    }
    if HasKind(r, k) && k != kind {
      var j :| 0 <= j < |r| && r[j].kind == k;
      assert r[j] == app[j];
    }
  }

  /** Sorting keeps the set of kinds. */
  lemma SortKeepsKinds(app: App, k: IfdKind)
    ensures HasKind(SortBy(app, IfdNr), k) <==> HasKind(app, k)
  {
    var s := SortBy(app, IfdNr);
    SortSortsAndPermutes(app, IfdNr);
    if HasKind(app, k) {
      var j :| 0 <= j < |app| && app[j].kind == k;
      assert app[j] in multiset(s);
    }
    if HasKind(s, k) {
      var j :| 0 <= j < |s| && s[j].kind == k;
      assert s[j] in multiset(app);
    }
  }

  /** Distinct kinds carry distinct numbers. */
  lemma NrInjective(a: IfdKind, b: IfdKind)
    requires a != b
    ensures a.Nr() != b.Nr()
  {
  }

  /** With each kind at most once, a directory is the first of its kind. */
  lemma FindIfdUnique(app: App, m: nat)
    requires UniqueKinds(app) && m < |app|
    ensures FindIfd(app, app[m].kind) == Some(m)
  {
  }

  /** Sorting directories of distinct kinds puts them in ascending number,
      keeps them sound, and keeps every lookup. */
  lemma SortIfdsKeeps(app: App)
    requires UniqueKinds(app)
    ensures var s := SortBy(app, IfdNr);
            && SortedKinds(s)
            && (AllSound(app) ==> AllSound(s))
            && (AllUnique(app) ==> AllUnique(s))
            && forall k, id :: FindTag(s, k, id) == FindTag(app, k, id)
  {
    var s := SortBy(app, IfdNr);
    SortSortsAndPermutes(app, IfdNr);
    forall a, b | 0 <= a < b < |app| ensures IfdNr(app[a]) != IfdNr(app[b]) {
      NrInjective(app[a].kind, app[b].kind);
    }
    SortDistinct(app, IfdNr);
    assert SortedKinds(s) by {
      forall a, b | 0 <= a < b < |s| ensures s[a].kind.Nr() < s[b].kind.Nr() {
        assert IfdNr(s[a]) < IfdNr(s[b]);
      }
    }
    forall m | 0 <= m < |s| ensures s[m] in app {
      assert s[m] in multiset(app);
    }
    forall k, id ensures FindTag(s, k, id) == FindTag(app, k, id) {
      SortKeepsKinds(app, k);
      if HasKind(app, k) {
        var a := FindIfd(app, k).value;
        assert app[a] in multiset(s);
        var m :| 0 <= m < |s| && s[m] == app[a];
        FindIfdUnique(s, m);
      }
    }
  }

  /** What the layout assumes of the segment's directories: each sound
      with distinct ids, each kind once, room for the GPS tags, and the
      Exif and Interop pointer tags in place for the directories present.
      The reader gives each kind once and the pointer tags (it reaches
      those directories through them), but not the rest: it keeps repeated
      ids, may leave an out-of-line buffer shorter than its size, and may
      fill a directory to 0xFFFF entries. */
  predicate LayOutReady(app: App) {
    && AllSound(app) && AllUnique(app) && UniqueKinds(app)
    && Roomy(app, Ifd0) && Roomy(app, GpsIfd)
    && (HasKind(app, InteropIfd) ==> HasKind(app, ExifIfd))
    && (HasKind(app, ExifIfd) ==> FindTag(app, Ifd0, TAG_EXIF_IFD).Some?)
    && (HasKind(app, InteropIfd) ==> FindTag(app, ExifIfd, TAG_INTEROP_IFD).Some?)
  }

  /** The GPS puts keep the directories sound and their kinds distinct. */
  lemma GpsPutsSound(app: App)
    requires LayOutReady(app)
    ensures var w := GpsPuts(app); AllSound(w) && AllUnique(w) && UniqueKinds(w)
  {
    PutFourKeeps(app, Ifd0, TAG_GPS_IFD, LONG, 1, LittleEndian(0 % TWO32, 4));
    PrepareFits();
    PutFourKeeps(PutLong(app, Ifd0, TAG_GPS_IFD, 0, 0), GpsIfd, TAG_GPS_VERSION, BYTE, 4, GPS_VERSION);
  }

  /** The GPS pointer tag is there after the GPS puts. */
  lemma GpsPointerPut(app: App)
    ensures FindTag(GpsPuts(app), Ifd0, TAG_GPS_IFD).Some?
  {
    var w1 := PutLong(app, Ifd0, TAG_GPS_IFD, 0, 0);
    PrepareFits();
    PutValueFrame(w1, GpsIfd, TAG_GPS_VERSION, BYTE, 4, 0, Some(GPS_VERSION), Ifd0, TAG_GPS_IFD);
  }

  /** Every other lookup is as before the GPS puts. */
  lemma GpsPutsFrame(app: App, k: IfdKind, id: nat)
    requires (k, id) != (Ifd0, TAG_GPS_IFD) && (k, id) != (GpsIfd, TAG_GPS_VERSION)
    ensures FindTag(GpsPuts(app), k, id) == FindTag(app, k, id)
  {
    var w1 := PutLong(app, Ifd0, TAG_GPS_IFD, 0, 0);
    PrepareFits();
    PutValueFrame(w1, GpsIfd, TAG_GPS_VERSION, BYTE, 4, 0, Some(GPS_VERSION), k, id);
    assert FindTag(w1, k, id) == FindTag(app, k, id);
  }

  /** After the GPS puts every pointer tag is in place: the GPS one just
      put, the others as they were. */
  lemma GpsPutsPointers(app: App)
    requires LayOutReady(app)
    ensures PointersPresent(GpsPuts(app))
  {
    var w := GpsPuts(app);
    forall k | PointerTag(k).Some? && HasKind(w, k)
      ensures FindTag(w, PointerTag(k).value.0, PointerTag(k).value.1).Some?
    {
      GpsPutsKinds(app, k);
      if k == GpsIfd {
        GpsPointerPut(app);
      } else {
        GpsPutsFrame(app, PointerTag(k).value.0, PointerTag(k).value.1);
      }
    }
  }

  /** After the GPS puts and the sort, every directory is sound and in
      ascending number, and every pointer tag is in place. */
  lemma PrepareSound(app: App)
    requires LayOutReady(app)
    ensures var r := Prepare(app);
            && AllSound(r) && AllUnique(r) && SortedKinds(r) && PointersPresent(r)
  {
    var w := GpsPuts(app);
    GpsPutsSound(app);
    GpsPutsPointers(app);
    SortIfdsKeeps(w);
    forall k | PointerTag(k).Some? && HasKind(Prepare(app), k)
      ensures FindTag(Prepare(app), PointerTag(k).value.0, PointerTag(k).value.1).Some?
    {
      SortKeepsKinds(w, k);
    }
  }

  /** Each directory's entries in ascending id order (exif.cc:1257-1260). */
  function SortTags(app: App): (r: App)
    ensures SameKinds(app, r)
    decreases |app|
  {
    if |app| == 0 then []
    else [app[0].(tags := SortBy(app[0].tags, TagId))] + SortTags(app[1..])
  }

  /** SortTags sorts every directory's entries and nothing else. */
  lemma {:induction false} SortTagsAt(app: App, j: nat)
    requires j < |app|
    ensures SortTags(app)[j] == app[j].(tags := SortBy(app[j].tags, TagId))
    decreases |app|
  {
    if j > 0 {
      SortTagsAt(app[1..], j - 1);
    }
  }

  /** Sorting the entries keeps every directory sound, its size, and, with
      distinct ids, every lookup. */
  lemma SortTagsKeeps(app: App)
    ensures var r := SortTags(app);
            && SameSizes(app, r)
            && (AllSound(app) ==> AllSound(r))
            && (AllUnique(app) ==> AllUnique(r))
            && (AllUnique(app) ==> forall k, id :: FindTag(r, k, id) == FindTag(app, k, id))
  {
    var r := SortTags(app);
    forall j | 0 <= j < |app|
      ensures Footprint(r[j]) == Footprint(app[j])
      ensures Sound(app[j]) ==> Sound(r[j])
      ensures UniqueIds(app[j].tags) ==> UniqueIds(r[j].tags)
    {
      SortTagsAt(app, j);
      SortedTagsSound(app[j]);
      if UniqueIds(app[j].tags) {
        StrictAfterSort(app[j].tags, r[j].tags);
      }
    }
    if AllUnique(app) {
      forall k, id ensures FindTag(r, k, id) == FindTag(app, k, id) {
        KindsDecideFind(app, r, k);
        if HasKind(app, k) {
          var j := FindIfd(app, k).value;
          SortTagsAt(app, j);
          SortedTagsLookup(app[j].tags, id);
        }
      }
    }
  }

  /** The thumbnail offset store (exif.cc:1253-1255): made only when IFD1
      holds the offset tag. */
  function ThumbStore(app: App, thumb: nat): (r: App)
    ensures SameKinds(app, r)
  {
    if FindTag(app, Ifd1, TAG_JPEG_OFFSET).Some? then
      PutLongKeepsKinds(app, Ifd1, TAG_JPEG_OFFSET, thumb);
      PutLong(app, Ifd1, TAG_JPEG_OFFSET, 0, thumb)
    else app
  }

  /** exif.cc:1237-1260, after the sort: the pointer loop from offset 8,
      the thumbnail offset (IFD1 tag 0x0201, when present) set to the
      offset past the last directory and its four zero bytes, and the
      entry sort. */
  function Stages(s: App): App
    requires PassTargets(s)
  {
    SortTags(Thumbed(s))
  }

  /** The directories after the pointer loop and the thumbnail store. */
  function Thumbed(s: App): App
    requires PassTargets(s)
  {
    ThumbStore(PointerPass(s, 0, FIRST_IFD).0, Advance(PointerPass(s, 0, FIRST_IFD).1, 4))
  }

  /** exif.cc:1229-1260: the directories as exif_write_ifd receives them. */
  function LayOut(app: App): (r: App)
    requires HasKind(app, InteropIfd) ==> HasKind(app, ExifIfd)
    ensures LayOutReady(app) ==> AllSound(r) && SortedKinds(r)
  {
    LayOutShape(app);
    Stages(Prepare(app))
  }

  /** Directory order depends on the kinds alone. */
  lemma SameKindsSorted(a: App, b: App)
    requires SameKinds(a, b) && SortedBy(a, IfdNr)
    ensures SortedBy(b, IfdNr)
  {
    assert forall j :: 0 <= j < |a| ==> IfdNr(a[j]) == IfdNr(b[j]);
  }

  lemma SameKindsStrict(a: App, b: App)
    requires SameKinds(a, b) && SortedKinds(a)
    ensures SortedKinds(b)
  {
    forall i, j | 0 <= i < j < |b| ensures b[i].kind.Nr() < b[j].kind.Nr() {
      assert a[i].kind == b[i].kind && a[j].kind == b[j].kind;
    }
  }

  /** A ready input gives sound directories in strictly ascending number. */
  lemma LayOutShape(app: App)
    requires HasKind(app, InteropIfd) ==> HasKind(app, ExifIfd)
    ensures LayOutReady(app) ==> AllSound(Stages(Prepare(app))) && SortedKinds(Stages(Prepare(app)))
  {
    if LayOutReady(app) {
      var s := Prepare(app);
      PrepareSound(app);
      StagesSound(s);
      StagesKinds(s);
      SameKindsStrict(s, Stages(s));
    }
  }

  /** The directories leave the layout ascending by number, whatever the
      input (exif.cc:1235). */
  lemma LayOutSorted(app: App)
    requires HasKind(app, InteropIfd) ==> HasKind(app, ExifIfd)
    ensures SortedBy(LayOut(app), IfdNr)
  {
    var s := Prepare(app);
    SortSortsAndPermutes(GpsPuts(app), IfdNr);
    StagesKinds(s);
    SameKindsSorted(s, Stages(s));
  }

  lemma SameKindsTrans(a: App, b: App, c: App)
    requires SameKinds(a, b) && SameKinds(b, c)
    ensures SameKinds(a, c)
  {
    forall j | 0 <= j < |a| ensures a[j].kind == c[j].kind {
      assert a[j].kind == b[j].kind == c[j].kind;
    }
  }

  /** The stages after the sort keep the kinds in place. */
  lemma StagesKinds(s: App)
    requires PassTargets(s)
    ensures SameKinds(s, Stages(s))
  {
    var p := PointerPass(s, 0, FIRST_IFD);
    var thumbed := ThumbStore(p.0, Advance(p.1, 4));
    SameKindsTrans(s, p.0, thumbed);
    SameKindsTrans(s, thumbed, SortTags(thumbed));
  }

  /** The pointer loop, the thumbnail store and the entry sort keep
      sound directories sound. */
  lemma StagesSound(s: App)
    requires PassTargets(s) && AllSound(s) && PointersPresent(s)
    ensures AllSound(Stages(s))
  {
    var passed := PointerPass(s, 0, FIRST_IFD).0;
    var len := PointerPass(s, 0, FIRST_IFD).1;
    PassKeeps(s, 0, FIRST_IFD);
    var thumbed := ThumbStore(passed, Advance(len, 4));
    if FindTag(passed, Ifd1, TAG_JPEG_OFFSET).Some? {
      PutLongKeeps(passed, Ifd1, TAG_JPEG_OFFSET, Advance(len, 4));
    }
    SortTagsKeeps(thumbed);
  }

  /** The TIFF header: byte order, 42, and the offset of the first
      directory (exif.cc:1265-1267). */
  function TiffHeader(big: bool): (h: seq<byte>)
    ensures |h| == 8
  {
    (if big then ORDER_MM else ORDER_II) + Put16(0x2A, big) + Put32(FIRST_IFD, big)
  }

  /** The next flag of directory `i`: IFD0 followed directly by IFD1
      (exif.cc:1272). */
  predicate NextFlag(app: App, i: nat)
    requires i < |app|
  {
    app[i].kind == Ifd0 && i + 1 < |app| && app[i + 1].kind == Ifd1
  }

  predicate AllTagsWritable(app: App) {
    forall j :: 0 <= j < |app| ==> AllWritable(app[j].tags)
  }

  /** Directory `j` as the directory loop writes it from position `p`. The
      guard only makes the piece total: WriteIfds asks for writable tags
      in every directory. */
  function Piece(app: App, j: nat, p: nat, big: bool): Result<seq<byte>> {
    if j < |app| && AllWritable(app[j].tags) then
      var written :- WriteIfd(app[j], NextFlag(app, j), p, big);
      Ok(written.0)
    else Ok([])
  }

  function Pieces(app: App, big: bool): (nat, nat) -> Result<seq<byte>> {
    (j: nat, p: nat) => Piece(app, j, p, big)
  }

  /** The directories in order, each written where the previous one ended
      (exif.cc:1269-1276). */
  function WriteIfds(app: App, pos: nat, big: bool): (r: Result<seq<byte>>)
    requires AllTagsWritable(app)
    ensures |app| == 0 ==> r == Ok([])
    ensures r.Ok? && |app| > 0 ==> Piece(app, 0, pos, big).Ok? && Piece(app, 0, pos, big).value <= r.value
  {
    Chain(|app|, 0, pos, Pieces(app, big))
  }

  /** The TIFF image of the segment: header, directories from offset 8, the
      four zero bytes ending the chain, then the thumbnail bytes copied from
      the input file. */
  function WriteTiff(app: App, big: bool, thumbnail: seq<byte>): (r: Result<seq<byte>>)
    requires AllTagsWritable(app)
    ensures r.Ok? <==> WriteIfds(app, FIRST_IFD, big).Ok?
    ensures r.Ok? ==> |r.value| >= 12 + |thumbnail| && r.value[..8] == TiffHeader(big)
    ensures r.Ok? ==> r.value[|r.value| - |thumbnail| - 4..] == Put32(0, big) + thumbnail
  {
    var ifds :- WriteIfds(app, FIRST_IFD, big);
    Framed(TiffHeader(big), ifds, Put32(0, big), thumbnail);
    Ok(TiffHeader(big) + ifds + Put32(0, big) + thumbnail)
  }

  /** A header, a middle part and two closing parts laid end to end. */
  lemma Framed(head: seq<byte>, mid: seq<byte>, end: seq<byte>, tail: seq<byte>)
    ensures (head + mid + end + tail)[..|head|] == head
    ensures (head + mid + end + tail)[|head + mid + end + tail| - |tail| - |end|..] == end + tail
  {
  }

  /** The segment as exif_examine_app reads it: "Exif\0\0", then the image. */
  function SegmentBody(tiff: seq<byte>): seq<byte> {
    EXIF_MARKER + tiff
  }
}
