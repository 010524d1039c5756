/** What exif_write_apps promises of the image it writes: the header reads
    back through exif_examine_app's checks, the directories follow it one
    after another, every sub-directory pointer holds the offset at which its
    directory is written, IFD0's next pointer holds IFD1's, and the
    thumbnail offset holds the position of the thumbnail bytes. The pointer
    loop keeps its running offset in 16 bits (the segment length is a
    16-bit field), so the offsets are exact when the image stays under
    64 KiB.
 */
module LayoutFacts {
  import opened Outcomes
  import opened Bytes
  import opened FieldTypes
  import opened Directory
  import opened Mutation
  import opened MutationFacts
  import opened Setters
  import opened Writer
  import opened WriterFacts
  import opened Reader
  import opened Sorting
  import opened Footprints
  import opened AppWriter
  import opened Chains

  /** The header reads back: the segment passes exif_examine_app's checks
      with the byte order it was written in, the TIFF magic is 42 and the
      first directory is announced at offset 8. */
  lemma HeaderReadsBack(big: bool, rest: seq<byte>)
    ensures CheckHeader(SegmentBody(TiffHeader(big) + rest)) == Ok(big)
    ensures SegmentBody(TiffHeader(big) + rest)[6..] == TiffHeader(big) + rest
    ensures Get16(TiffHeader(big) + rest, 2, big) == 0x2A
    ensures Get32(TiffHeader(big) + rest, 4, big) == FIRST_IFD
  {
    var order := if big then ORDER_MM else ORDER_II;
    var tiff := TiffHeader(big) + rest;
    var seg := SegmentBody(tiff);
    assert seg[..6] == EXIF_MARKER;
    assert seg[6..8] == order;
    assert tiff[2..4] == Put16(0x2A, big);
    Get16At(tiff, 2, 0x2A, big);
    assert tiff[4..8] == Put32(FIRST_IFD, big);
    Get32At(tiff, 4, FIRST_IFD, big);
  }

  /** The footprints of the directories, as the sizes of the pieces of
      the directory loop. */
  function Sizes(app: App): nat -> nat {
    (j: nat) => if j < |app| then Footprint(app[j]) else 0
  }

  /** The bytes directories `i` up to `k` occupy. */
  function Span(app: App, i: nat, k: nat): nat
    requires i <= k <= |app|
  {
    Total(Sizes(app), i, k)
  }

  /** The same sum as exif_write_apps forms it, each directory's size
      truncated to 32 bits by exif_ifd_size. */
  function SizeSum(app: App, i: nat, k: nat): nat
    requires i <= k <= |app|
    decreases k - i
  {
    if i == k then 0 else IfdSize(app[i]) + SizeSum(app, i + 1, k)
  }

  /** Spans add up. */
  lemma {:induction false} SpanSplit(app: App, i: nat, j: nat, k: nat)
    requires i <= j <= k <= |app|
    ensures Span(app, i, k) == Span(app, i, j) + Span(app, j, k)
    decreases j - i
  {
    TotalSplit(Sizes(app), i, j, k);
  }

  /** Directories of the same sizes give the same sums. */
  lemma {:induction false} SameSizesSums(a: App, b: App, i: nat, k: nat)
    requires SameSizes(a, b) && i <= k <= |a|
    ensures SizeSum(a, i, k) == SizeSum(b, i, k) && Span(a, i, k) == Span(b, i, k)
    decreases k - i
  {
    if i < k {
      SameSizesSums(a, b, i + 1, k);
    }
  }

  /** Without 32-bit overflow the truncated sum is the span. */
  lemma {:induction false} SizeSumExact(app: App, i: nat, k: nat)
    requires i <= k <= |app| && Span(app, i, k) < TWO32
    ensures SizeSum(app, i, k) == Span(app, i, k)
    decreases k - i
  {
    if i < k {
      SizeSumExact(app, i + 1, k);
    }
  }

  /** Adding to a reduced sum reduces like adding to the sum. */
  lemma ModAdd(a: nat, b: nat)
    ensures (a % TWO16 + b) % TWO16 == (a + b) % TWO16
  {
    var q := a / TWO16;
    assert a == q * TWO16 + a % TWO16;
    assert a + b == (a % TWO16 + b) + q * TWO16;
  }

  /** The pointer tag of kind `k` is present and holds `v`. */
  predicate Points(app: App, k: IfdKind, v: nat) {
    && PointerTag(k).Some?
    && FindTag(app, PointerTag(k).value.0, PointerTag(k).value.1).Some?
    && |FindTag(app, PointerTag(k).value.0, PointerTag(k).value.1).value.data| >= 4
    && FindTag(app, PointerTag(k).value.0, PointerTag(k).value.1).value.ToLong() == v
  }

  /** Distinct sub-directories have distinct pointer tags. */
  lemma PointerTagInjective(a: IfdKind, b: IfdKind)
    requires a != b && PointerTag(a).Some? && PointerTag(b).Some?
    ensures PointerTag(a).value != PointerTag(b).value
  {
  }

  /** A store into another entry leaves a pointer as it was. */
  lemma PointsFrame(a: App, b: App, k: IfdKind, v: nat, kind: IfdKind, id: nat)
    requires Points(a, k, v) && OthersUnchanged(a, b, kind, id) && PointerTag(k).value != (kind, id)
    ensures Points(b, k, v)
  {
    var (h, other) := PointerTag(k).value;
    assert FindTag(b, h, other) == FindTag(a, h, other);
  }

  /** exif_put_long of a 16-bit offset into the pointer tag of `k`. */
  lemma PutLongPoints(app: App, k: IfdKind, len: nat)
    requires PointerTag(k).Some? && len < TWO16
    ensures Points(PutLong(app, PointerTag(k).value.0, PointerTag(k).value.1, 0, len), k, len)
  {
    var (h, id) := PointerTag(k).value;
    var r := PutLong(app, h, id, 0, len);
    var t := FindTag(r, h, id).value;
    assert LittleValue(t.data[0 * 4..0 * 4 + 4]) == len % TWO32;
    assert t.data[0 * 4..0 * 4 + 4] == t.data[..4];
    SmallMod(len);
  }

  lemma SmallMod(x: nat)
    requires x < TWO32
    ensures x % TWO32 == x
  {
  }

  /** The invariants the pointer loop keeps. */
  predicate PassReady(app: App) {
    PassTargets(app) && AllSound(app) && PointersPresent(app)
  }

  /** No directory from `from` on is of kind `k`. */
  predicate KindAbsent(app: App, k: IfdKind, from: nat) {
    forall j :: from <= j < |app| ==> app[j].kind != k
  }

  /** With distinct kinds, none repeats after its first place. */
  lemma UniqueAbsent(app: App, k: IfdKind)
    requires UniqueKinds(app) && FindIfd(app, k).Some?
    ensures KindAbsent(app, k, FindIfd(app, k).value + 1)
  {
    var g := FindIfd(app, k).value;
    forall j | g + 1 <= j < |app| ensures app[j].kind != k {
      FindIfdUnique(app, g);
      FindIfdUnique(app, j);
    }
  }

  lemma StepReady(app: App, i: nat, len: nat)
    requires i < |app| && PassReady(app)
    ensures PassReady(PointerStep(app, i, len)) && SameSizes(app, PointerStep(app, i, len))
  {
    PointerStepKeeps(app, i, len);
    SameKindsKeepTargets(app, PointerStep(app, i, len));
  }

  /** A step for another directory leaves a set pointer alone. */
  lemma StepKeepsPoint(app: App, i: nat, len: nat, k: IfdKind, v: nat)
    requires i < |app| && PassTargets(app) && Points(app, k, v) && KindAbsent(app, k, i)
    ensures Points(PointerStep(app, i, len), k, v) && KindAbsent(PointerStep(app, i, len), k, i + 1)
  {
    var next := PointerStep(app, i, len);
    match PointerTag(app[i].kind)
    case None =>
    case Some((home, id)) =>
      PointerTagInjective(app[i].kind, k);
      PointsFrame(app, next, k, v, home, id);
  }

  /** The step for directory `i` of kind `k` sets its pointer to `len`. */
  lemma StepSetsPoint(app: App, i: nat, len: nat, k: IfdKind)
    requires i < |app| && PassTargets(app) && len < TWO16 && app[i].kind == k && PointerTag(k).Some?
    requires KindAbsent(app, k, i + 1)
    ensures Points(PointerStep(app, i, len), k, len) && KindAbsent(PointerStep(app, i, len), k, i + 1)
  {
    PutLongPoints(app, k, len);
  }

  /** A step before the first directory of kind `k` keeps where it is. */
  lemma StepPassesOver(app: App, i: nat, len: nat, k: IfdKind)
    requires i < |app| && PassTargets(app) && FindIfd(app, k).Some? && i < FindIfd(app, k).value
    requires KindAbsent(app, k, FindIfd(app, k).value + 1)
    ensures FindIfd(PointerStep(app, i, len), k) == FindIfd(app, k)
    ensures KindAbsent(PointerStep(app, i, len), k, FindIfd(app, k).value + 1)
  {
    KindsDecideFind(app, PointerStep(app, i, len), k);
  }

  /** The running offset of the pointer loop when it reaches directory
      `e`, having started at directory `i` with `len`. */
  function OffsetAt(app: App, i: nat, e: nat, len: nat): nat
    requires i <= e <= |app|
    decreases e - i
  {
    if i == e then len else OffsetAt(app, i + 1, e, Advance(len, IfdSize(app[i])))
  }

  lemma OffsetAtUnfold(app: App, i: nat, e: nat, len: nat)
    requires i < e <= |app|
    ensures OffsetAt(app, i, e, len) == OffsetAt(app, i + 1, e, Advance(len, IfdSize(app[i])))
  {
  }

  /** Directories of the same sizes get the same offsets. */
  lemma {:induction false} OffsetAtSame(a: App, b: App, i: nat, e: nat, len: nat)
    requires SameSizes(a, b) && i <= e <= |a|
    ensures OffsetAt(a, i, e, len) == OffsetAt(b, i, e, len)
    decreases e - i
  {
    if i < e {
      assert IfdSize(a[i]) == IfdSize(b[i]);
      OffsetAtSame(a, b, i + 1, e, Advance(len, IfdSize(a[i])));
    }
  }

  /** The running offset is the start plus the sizes between, in 16 bits. */
  lemma {:induction false} OffsetAtSum(app: App, i: nat, e: nat, len: nat)
    requires i <= e <= |app| && len < TWO16
    ensures OffsetAt(app, i, e, len) == (len + SizeSum(app, i, e)) % TWO16
    decreases e - i
  {
    if i < e {
      OffsetAtSum(app, i + 1, e, Advance(len, IfdSize(app[i])));
      ModAdd(len + IfdSize(app[i]), SizeSum(app, i + 1, e));
    }
  }

  /** A pointer already set stays set while the loop walks on: later steps
      store into other pointer tags. */
  lemma {:induction false} PassKeepsPoint(app: App, i: nat, len: nat, k: IfdKind, v: nat)
    requires i <= |app| && len < TWO16 && PassReady(app)
    requires Points(app, k, v) && KindAbsent(app, k, i)
    ensures Points(PointerPass(app, i, len).0, k, v)
    decreases |app| - i
  {
    if i < |app| {
      var next := PointerStep(app, i, len);
      PassUnfold(app, i, len);
      StepReady(app, i, len);
      StepKeepsPoint(app, i, len, k, v);
      PassKeepsPoint(next, i + 1, Advance(len, IfdSize(app[i])), k, v);
    }
  }

  /** The step at the first directory of kind `k` and the rest of the
      loop leave its pointer holding `len`. */
  lemma PassSetsHere(app: App, i: nat, len: nat, k: IfdKind)
    requires i < |app| && len < TWO16 && PassReady(app) && PointerTag(k).Some?
    requires app[i].kind == k && KindAbsent(app, k, i + 1)
    ensures Points(PointerPass(app, i, len).0, k, len)
  {
    var next := PointerStep(app, i, len);
    var len' := Advance(len, IfdSize(app[i]));
    assert PassReady(next) && Points(next, k, len) && KindAbsent(next, k, i + 1) by {
      StepReady(app, i, len);
      StepSetsPoint(app, i, len, k);
    }
    assert PointerPass(app, i, len) == PointerPass(next, i + 1, len') by {
      PassUnfold(app, i, len);
    }
    PassKeepsPoint(next, i + 1, len', k, len);
  }

  /** A step before the first directory of kind `k`: what the rest of the
      loop starts from. */
  lemma PassOver(app: App, i: nat, len: nat, k: IfdKind)
    requires i < |app| && len < TWO16 && PassReady(app)
    requires FindIfd(app, k).Some? && i < FindIfd(app, k).value && KindAbsent(app, k, FindIfd(app, k).value + 1)
    ensures var next := PointerStep(app, i, len);
            var len' := Advance(len, IfdSize(app[i]));
            && PassReady(next) && FindIfd(next, k) == FindIfd(app, k)
            && KindAbsent(next, k, FindIfd(app, k).value + 1)
            && PointerPass(app, i, len) == PointerPass(next, i + 1, len')
            && OffsetAt(app, i, FindIfd(app, k).value, len) == OffsetAt(next, i + 1, FindIfd(app, k).value, len')
  {
    var next := PointerStep(app, i, len);
    var len' := Advance(len, IfdSize(app[i]));
    PassUnfold(app, i, len);
    StepReady(app, i, len);
    StepPassesOver(app, i, len, k);
    OffsetAtSame(app, next, i + 1, FindIfd(app, k).value, len');
    OffsetAtUnfold(app, i, FindIfd(app, k).value, len);
  }

  /** The loop from directory `i` with running offset `len` gives the first
      directory of kind `k`, at or after `i`, the offset the loop has
      reached there. */
  lemma {:induction false} PassSetsPoint(app: App, i: nat, len: nat, k: IfdKind)
    requires i <= |app| && len < TWO16 && PassReady(app) && PointerTag(k).Some?
    requires FindIfd(app, k).Some? && i <= FindIfd(app, k).value && KindAbsent(app, k, FindIfd(app, k).value + 1)
    ensures Points(PointerPass(app, i, len).0, k, OffsetAt(app, i, FindIfd(app, k).value, len))
    decreases |app| - i
  {
    if FindIfd(app, k).value == i {
      PassSetsHere(app, i, len, k);
    } else {
      PassOver(app, i, len, k);
      PassSetsPoint(PointerStep(app, i, len), i + 1, Advance(len, IfdSize(app[i])), k);
    }
  }

  /** The offset the loop ends with: `len` plus every size. */
  lemma {:induction false} PassLength(app: App, i: nat, len: nat)
    requires i <= |app| && len < TWO16 && PassReady(app)
    ensures PointerPass(app, i, len).1 == OffsetAt(app, i, |app|, len)
    decreases |app| - i
  {
    if i < |app| {
      var next := PointerStep(app, i, len);
      var len' := Advance(len, IfdSize(app[i]));
      PassUnfold(app, i, len);
      StepReady(app, i, len);
      PassLength(next, i + 1, len');
      OffsetAtSame(app, next, i + 1, |app|, len');
    }
  }

  /** Ascending kinds are distinct kinds. */
  lemma SortedUniqueKinds(app: App)
    requires SortedKinds(app)
    ensures UniqueKinds(app)
  {
  }

  /** The thumbnail offset lives in IFD1, never in a pointer's home. */
  lemma ThumbKeepsPoint(app: App, thumb: nat, k: IfdKind, v: nat)
    requires Points(app, k, v)
    ensures Points(ThumbStore(app, thumb), k, v)
  {
    if FindTag(app, Ifd1, TAG_JPEG_OFFSET).Some? {
      PointsFrame(app, ThumbStore(app, thumb), k, v, Ifd1, TAG_JPEG_OFFSET);
    }
  }

  /** Sorting distinct entries keeps every pointer. */
  lemma SortTagsKeepPoint(app: App, k: IfdKind, v: nat)
    requires AllUnique(app) && Points(app, k, v)
    ensures Points(SortTags(app), k, v)
  {
    SortTagsKeeps(app);
    var (h, id) := PointerTag(k).value;
    assert FindTag(SortTags(app), h, id) == FindTag(app, h, id);
  }

  /** The input of the stages after the directory sort. */
  predicate StagesReady(s: App) {
    PassReady(s) && AllUnique(s) && SortedKinds(s)
  }

  lemma PrepareReady(app: App)
    requires LayOutReady(app)
    ensures StagesReady(Prepare(app))
  {
    PrepareSound(app);
  }

  /** Up to the entry sort the stages keep sound directories sound, their
      sizes and their distinct ids. */
  lemma ThumbedKeeps(s: App)
    requires StagesReady(s)
    ensures var t := Thumbed(s); AllSound(t) && AllUnique(t) && SameSizes(s, t)
  {
    var passed := PointerPass(s, 0, FIRST_IFD).0;
    var len := PointerPass(s, 0, FIRST_IFD).1;
    PassKeeps(s, 0, FIRST_IFD);
    if FindTag(passed, Ifd1, TAG_JPEG_OFFSET).Some? {
      PutLongKeeps(passed, Ifd1, TAG_JPEG_OFFSET, Advance(len, 4));
    }
  }

  /** The stages keep the sizes the directory sort left. */
  lemma StagesSizes(s: App)
    requires StagesReady(s)
    ensures SameSizes(s, Stages(s)) && AllUnique(Stages(s))
  {
    ThumbedKeeps(s);
    SortTagsKeeps(Thumbed(s));
  }

  /** After the stages the pointer of every sub-directory present holds
      the offset the loop reached at that directory. */
  lemma StagesPoint(s: App, k: IfdKind)
    requires StagesReady(s) && PointerTag(k).Some? && HasKind(s, k)
    ensures Points(Stages(s), k, OffsetAt(s, 0, FindIfd(s, k).value, FIRST_IFD))
  {
    var v := OffsetAt(s, 0, FindIfd(s, k).value, FIRST_IFD);
    var passed := PointerPass(s, 0, FIRST_IFD).0;
    var len := PointerPass(s, 0, FIRST_IFD).1;
    SortedUniqueKinds(s);
    UniqueAbsent(s, k);
    PassSetsPoint(s, 0, FIRST_IFD, k);
    ThumbKeepsPoint(passed, Advance(len, 4), k, v);
    ThumbedKeeps(s);
    SortTagsKeepPoint(Thumbed(s), k, v);
  }

  /** The thumbnail store, when it finds the offset entry, leaves it
      holding the offset it was given. */
  lemma ThumbStoreValue(app: App, thumb: nat)
    requires thumb < TWO16 && FindTag(ThumbStore(app, thumb), Ifd1, TAG_JPEG_OFFSET).Some?
    ensures |FindTag(ThumbStore(app, thumb), Ifd1, TAG_JPEG_OFFSET).value.data| >= 4
    ensures FindTag(ThumbStore(app, thumb), Ifd1, TAG_JPEG_OFFSET).value.ToLong() == thumb
  {
    assert FindTag(app, Ifd1, TAG_JPEG_OFFSET).Some?;
    var t := FindTag(ThumbStore(app, thumb), Ifd1, TAG_JPEG_OFFSET).value;
    assert LittleValue(t.data[0 * 4..0 * 4 + 4]) == thumb % TWO32;
    assert t.data[0 * 4..0 * 4 + 4] == t.data[..4];
    SmallMod(thumb);
  }

  /** After the stages the thumbnail offset, when IFD1 has it, holds the
      offset the loop ended with plus the four bytes of the chain's end. */
  lemma StagesThumb(s: App)
    requires StagesReady(s) && FindTag(Stages(s), Ifd1, TAG_JPEG_OFFSET).Some?
    ensures |FindTag(Stages(s), Ifd1, TAG_JPEG_OFFSET).value.data| >= 4
    ensures FindTag(Stages(s), Ifd1, TAG_JPEG_OFFSET).value.ToLong() == Advance(OffsetAt(s, 0, |s|, FIRST_IFD), 4)
  {
    var passed := PointerPass(s, 0, FIRST_IFD).0;
    var len := PointerPass(s, 0, FIRST_IFD).1;
    ThumbedKeeps(s);
    SortTagsKeeps(Thumbed(s));
    assert FindTag(Stages(s), Ifd1, TAG_JPEG_OFFSET) == FindTag(Thumbed(s), Ifd1, TAG_JPEG_OFFSET);
    ThumbStoreValue(passed, Advance(len, 4));
    PassLength(s, 0, FIRST_IFD);
  }

  lemma PassReadyKeeps(s: App)
    requires StagesReady(s)
    ensures PassReady(s)
  {
  }

  /** A sound directory occupies an even number of bytes. */
  lemma FootprintEven(d: Ifd, pos: nat)
    requires pos % 2 == 0
    ensures (pos + Footprint(d)) % 2 == 0
  {
    PayloadTotalEven(d.tags);
    var q := PayloadTotal(d.tags) / 2;
    var p := pos / 2;
    assert pos + Footprint(d) == 2 * (p + 3 + 6 * d.count + q);
  }

  /** exif_write_ifd of a sound directory from an even position writes
      exactly its footprint. */
  lemma WrittenFootprint(d: Ifd, next: bool, pos: nat, big: bool)
    requires Sound(d) && pos % 2 == 0 && WriteIfd(d, next, pos, big).Ok?
    ensures |WriteIfd(d, next, pos, big).value.0| == Footprint(d)
  {
    var start := pos + 2 + 12 * d.count + 4;
    WriteIfdLength(d, next, pos, big, Layout(d.tags, start).0, Layout(d.tags, start).1);
  }

  /** A piece the loop wrote is exif_write_ifd's output. */
  lemma PieceWritten(app: App, k: nat, p: nat, big: bool)
    requires AllSound(app) && k < |app| && Pieces(app, big)(k, p).Ok?
    ensures WriteIfd(app[k], NextFlag(app, k), p, big).Ok?
    ensures Pieces(app, big)(k, p).value == WriteIfd(app[k], NextFlag(app, k), p, big).value.0
  {
    assert Pieces(app, big)(k, p) == Piece(app, k, p, big);
  }

  /** From an even position, each sound directory takes its footprint. */
  lemma PiecesSized(app: App, big: bool)
    requires AllSound(app)
    ensures Sized(|app|, Pieces(app, big), Sizes(app))
  {
    forall j: nat | j < |app| ensures Sizes(app)(j) % 2 == 0 {
      FootprintEven(app[j], 0);
    }
    forall j: nat, p: nat | j < |app| && p % 2 == 0
      ensures SizedAt(Pieces(app, big), Sizes(app), j, p)
    {
      if Pieces(app, big)(j, p).Ok? {
        PieceWritten(app, j, p, big);
        WrittenFootprint(app[j], NextFlag(app, j), p, big);
      }
    }
  }

  /** The directories take the sum of their footprints. */
  lemma WriteIfdsLength(app: App, pos: nat, big: bool)
    requires AllSound(app) && pos % 2 == 0 && WriteIfds(app, pos, big).Ok?
    ensures |WriteIfds(app, pos, big).value| == Span(app, 0, |app|)
  {
    PiecesSized(app, big);
    ChainLength(|app|, 0, pos, Pieces(app, big), Sizes(app));
  }

  /** Directory `k` is written at `pos` plus the footprints of the
      directories before it, exactly as exif_write_ifd writes it there. */
  lemma WriteIfdsAt(app: App, pos: nat, big: bool, k: nat)
    requires AllSound(app) && k < |app| && pos % 2 == 0 && WriteIfds(app, pos, big).Ok?
    ensures Pieces(app, big)(k, StartOf(Sizes(app), 0, k, pos)).Ok?
    ensures Span(app, 0, k) + Sizes(app)(k) <= |WriteIfds(app, pos, big).value|
    ensures WriteIfds(app, pos, big).value[Span(app, 0, k)..Span(app, 0, k) + Sizes(app)(k)]
         == Pieces(app, big)(k, StartOf(Sizes(app), 0, k, pos)).value
  {
    PiecesSized(app, big);
    ChainAt(|app|, 0, pos, Pieces(app, big), Sizes(app), k);
  }

  /** Directory `k`'s piece, where the chain starts it, is exif_write_ifd's
      output from `pos` plus the footprints before it. */
  lemma PieceAtStart(app: App, pos: nat, big: bool, k: nat)
    requires AllSound(app) && k < |app| && Pieces(app, big)(k, StartOf(Sizes(app), 0, k, pos)).Ok?
    ensures Sizes(app)(k) == Footprint(app[k])
    ensures WriteIfd(app[k], NextFlag(app, k), pos + Span(app, 0, k), big).Ok?
    ensures Pieces(app, big)(k, StartOf(Sizes(app), 0, k, pos)).value
         == WriteIfd(app[k], NextFlag(app, k), pos + Span(app, 0, k), big).value.0
  {
    StartIsSpan(app, k, pos);
    PieceWritten(app, k, StartOf(Sizes(app), 0, k, pos), big);
  }

  /** The chain starts directory `k` after the footprints before it. */
  lemma StartIsSpan(app: App, k: nat, pos: nat)
    requires k <= |app|
    ensures StartOf(Sizes(app), 0, k, pos) == pos + Span(app, 0, k)
  {
    StartOfTotal(Sizes(app), 0, k, pos);
  }

  /** Within the directory area written from `pos`, directory `k` takes
      its footprint from the sum of the footprints before it, written as
      exif_write_ifd writes it at that position. */
  lemma IfdsWindow(app: App, pos: nat, big: bool, k: nat)
    requires AllSound(app) && k < |app| && pos % 2 == 0 && WriteIfds(app, pos, big).Ok?
    ensures WriteIfd(app[k], NextFlag(app, k), pos + Span(app, 0, k), big).Ok?
    ensures |WriteIfd(app[k], NextFlag(app, k), pos + Span(app, 0, k), big).value.0| == Footprint(app[k])
    ensures At(WriteIfds(app, pos, big).value, Span(app, 0, k), WriteIfd(app[k], NextFlag(app, k), pos + Span(app, 0, k), big).value.0)
  {
    WriteIfdsAt(app, pos, big, k);
    PieceAtStart(app, pos, big, k);
    SliceAt(WriteIfds(app, pos, big).value, Span(app, 0, k), WriteIfd(app[k], NextFlag(app, k), pos + Span(app, 0, k), big).value.0);
  }

  /** The image written by exif_write_apps: the header, the directories
      from offset 8, four zero bytes ending the chain, the thumbnail. */
  lemma TiffShape(app: App, big: bool, thumbnail: seq<byte>)
    requires AllTagsWritable(app) && WriteTiff(app, big, thumbnail).Ok?
    ensures WriteIfds(app, FIRST_IFD, big).Ok?
    ensures WriteTiff(app, big, thumbnail).value == TiffHeader(big) + WriteIfds(app, FIRST_IFD, big).value + Put32(0, big) + thumbnail
  {
  }

  /** The directory area sits in the image from offset 8 on. */
  lemma TiffIfds(app: App, big: bool, thumbnail: seq<byte>)
    requires AllTagsWritable(app) && WriteTiff(app, big, thumbnail).Ok?
    ensures WriteIfds(app, FIRST_IFD, big).Ok?
    ensures At(WriteTiff(app, big, thumbnail).value, FIRST_IFD, WriteIfds(app, FIRST_IFD, big).value)
  {
    TiffShape(app, big, thumbnail);
    AtSecond(TiffHeader(big), WriteIfds(app, FIRST_IFD, big).value, Put32(0, big), thumbnail);
  }

  /** Sound directories have writable entries. */
  lemma SoundWritable(app: App)
    requires AllSound(app)
    ensures AllTagsWritable(app)
  {
  }

  /** What the directory area holds, the image holds 8 bytes further on. */
  lemma AtInTiff(app: App, big: bool, thumbnail: seq<byte>, x: nat, w: seq<byte>)
    requires AllTagsWritable(app) && WriteTiff(app, big, thumbnail).Ok?
    requires WriteIfds(app, FIRST_IFD, big).Ok? && At(WriteIfds(app, FIRST_IFD, big).value, x, w)
    ensures At(WriteTiff(app, big, thumbnail).value, FIRST_IFD + x, w)
  {
    TiffIfds(app, big, thumbnail);
    AtAt(WriteTiff(app, big, thumbnail).value, FIRST_IFD, WriteIfds(app, FIRST_IFD, big).value, x, w);
  }

  /** The TIFF image: directory `k` sits at offset 8 plus the footprints of
      the directories before it. */
  lemma TiffDirectoryAt(app: App, big: bool, thumbnail: seq<byte>, k: nat)
    requires AllSound(app) && k < |app| && WriteTiff(app, big, thumbnail).Ok?
    ensures WriteIfd(app[k], NextFlag(app, k), FIRST_IFD + Span(app, 0, k), big).Ok?
    ensures At(WriteTiff(app, big, thumbnail).value, FIRST_IFD + Span(app, 0, k),
               WriteIfd(app[k], NextFlag(app, k), FIRST_IFD + Span(app, 0, k), big).value.0)
  {
    SoundWritable(app);
    TiffShape(app, big, thumbnail);
    IfdsWindow(app, FIRST_IFD, big, k);
    assert WriteIfds(app, FIRST_IFD, big).Ok?;
    assert At(WriteIfds(app, FIRST_IFD, big).value, Span(app, 0, k), WriteIfd(app[k], NextFlag(app, k), FIRST_IFD + Span(app, 0, k), big).value.0);
    assert WriteTiff(app, big, thumbnail).Ok?;
    AtInTiff(app, big, thumbnail, Span(app, 0, k), WriteIfd(app[k], NextFlag(app, k), FIRST_IFD + Span(app, 0, k), big).value.0);
  }

  /** exif_write_ifd from an even position: its bytes take the directory's
      footprint, and its next field holds the end of its payload area when
      the flag is set, zero otherwise. */
  lemma WrittenNext(d: Ifd, next: bool, pos: nat, big: bool)
    requires Sound(d) && pos % 2 == 0 && WriteIfd(d, next, pos, big).Ok?
    ensures |WriteIfd(d, next, pos, big).value.0| == Footprint(d)
    ensures At(WriteIfd(d, next, pos, big).value.0, 2 + 12 * d.count, Put32(if next then pos + Footprint(d) else 0, big))
  {
    var start := pos + 2 + 12 * d.count + 4;
    WriteIfdLength(d, next, pos, big, Layout(d.tags, start).0, Layout(d.tags, start).1);
    WriteIfdNext(d, next, pos, big, Layout(d.tags, start).0, Layout(d.tags, start).1);
    SliceAt(WriteIfd(d, next, pos, big).value.0, 2 + 12 * d.count, Put32(if next then pos + Footprint(d) else 0, big));
  }

  lemma SmallMod16(x: nat)
    requires x < TWO16
    ensures x % TWO16 == x
  {
  }

  /** The written image: header, directories, the chain's four zero bytes,
      the thumbnail. */
  lemma TiffParts(app: App, big: bool, thumbnail: seq<byte>)
    requires AllSound(app) && WriteTiff(app, big, thumbnail).Ok?
    ensures WriteIfds(app, FIRST_IFD, big).Ok?
    ensures |WriteTiff(app, big, thumbnail).value| == FIRST_IFD + Span(app, 0, |app|) + 4 + |thumbnail|
    ensures WriteTiff(app, big, thumbnail).value[FIRST_IFD + Span(app, 0, |app|) + 4..] == thumbnail
  {
    var ifds := WriteIfds(app, FIRST_IFD, big).value;
    WriteIfdsLength(app, FIRST_IFD, big);
    var tiff := TiffHeader(big) + ifds + Put32(0, big) + thumbnail;
    assert tiff == (TiffHeader(big) + ifds + Put32(0, big)) + thumbnail;
  }

  /** Before the 16-bit offsets wrap, the loop's running offset at
      directory `g` of the stages' input is the position at which the
      image holds directory `g` of the laid-out segment. */
  lemma OffsetExact(s: App, f: App, g: nat)
    requires SameSizes(s, f) && g <= |f| && FIRST_IFD + Span(f, 0, g) < TWO16
    ensures OffsetAt(s, 0, g, FIRST_IFD) == FIRST_IFD + Span(f, 0, g)
  {
    OffsetAtSum(s, 0, g, FIRST_IFD);
    SameSizesSums(s, f, 0, g);
    SizeSumExact(f, 0, g);
    SmallMod16(FIRST_IFD + Span(f, 0, g));
  }

  /** The laid-out segment as the stages make it. */
  lemma LayOutStages(app: App)
    requires LayOutReady(app)
    ensures StagesReady(Prepare(app)) && LayOut(app) == Stages(Prepare(app))
    ensures SameSizes(Prepare(app), LayOut(app)) && SameKinds(Prepare(app), LayOut(app))
    ensures AllSound(LayOut(app)) && AllUnique(LayOut(app)) && SortedKinds(LayOut(app))
  {
    PrepareReady(app);
    StagesSizes(Prepare(app));
    StagesKinds(Prepare(app));
  }

  /** The laid-out segment's pointer to each sub-directory present holds
      the position of that directory in the written image, the header and
      the footprints of the directories before it (TiffDirectoryAt shows the
      directory written there), provided the directories end below 64 KiB:
      the running offset of exif_write_apps is 16 bits wide. */
  lemma PointersLocate(app: App, k: IfdKind)
    requires LayOutReady(app) && PointerTag(k).Some? && HasKind(LayOut(app), k)
    requires FIRST_IFD + Span(LayOut(app), 0, |LayOut(app)|) < TWO16
    ensures FindIfd(LayOut(app), k).Some? && LayOut(app)[FindIfd(LayOut(app), k).value].kind == k
    ensures Points(LayOut(app), k, FIRST_IFD + Span(LayOut(app), 0, FindIfd(LayOut(app), k).value))
  {
    var s := Prepare(app);
    var f := LayOut(app);
    LayOutStages(app);
    KindsDecideFind(s, f, k);
    var g := FindIfd(f, k).value;
    StagesPoint(s, k);
    SpanSplit(f, 0, g, |f|);
    OffsetExact(s, f, g);
  }

  /** When IFD1 carries the JPEG offset entry, it holds the position just
      past the four zero bytes that end the directory chain, where
      TiffParts shows the thumbnail written. */
  lemma ThumbnailLocates(app: App)
    requires LayOutReady(app) && FindTag(LayOut(app), Ifd1, TAG_JPEG_OFFSET).Some?
    requires FIRST_IFD + Span(LayOut(app), 0, |LayOut(app)|) + 4 < TWO16
    ensures |FindTag(LayOut(app), Ifd1, TAG_JPEG_OFFSET).value.data| >= 4
    ensures FindTag(LayOut(app), Ifd1, TAG_JPEG_OFFSET).value.ToLong() == FIRST_IFD + Span(LayOut(app), 0, |LayOut(app)|) + 4
  {
    var s := Prepare(app);
    var f := LayOut(app);
    var at := OffsetAt(s, 0, |s|, FIRST_IFD);
    assert |FindTag(f, Ifd1, TAG_JPEG_OFFSET).value.data| >= 4
        && FindTag(f, Ifd1, TAG_JPEG_OFFSET).value.ToLong() == Advance(at, 4) by {
      LayOutStages(app);
      StagesThumb(s);
    }
    assert at == FIRST_IFD + Span(f, 0, |f|) by {
      LayOutStages(app);
      OffsetExact(s, f, |f|);
    }
    SmallMod16(FIRST_IFD + Span(f, 0, |f|) + 4);
  }

  /** Directory `j` starts at an even offset, and the next one where it ends. */
  lemma SpanNext(app: App, j: nat)
    requires AllSound(app) && j < |app|
    ensures (FIRST_IFD + Span(app, 0, j)) % 2 == 0 && Sound(app[j])
    ensures FIRST_IFD + Span(app, 0, j + 1) == FIRST_IFD + Span(app, 0, j) + Footprint(app[j])
    ensures FIRST_IFD + Span(app, 0, j) + Footprint(app[j]) <= FIRST_IFD + Span(app, 0, |app|)
  {
    SpanEven(app, 0, j);
    SpanSplit(app, 0, j, j + 1);
    assert Total(Sizes(app), j + 1, j + 1) == 0;
    assert Sizes(app)(j) == Footprint(app[j]);
    SpanSplit(app, 0, j + 1, |app|);
  }

  /** The end of directory `j`, as its next field names it. */
  lemma NextTarget(app: App, j: nat, big: bool)
    requires AllSound(app) && j < |app|
    ensures Put32(if NextFlag(app, j) then FIRST_IFD + Span(app, 0, j) + Footprint(app[j]) else 0, big)
         == Put32(if NextFlag(app, j) then FIRST_IFD + Span(app, 0, j + 1) else 0, big)
  {
    SpanNext(app, j);
  }

  /** Directory `j` written where the image holds it names, in its next
      field, the position of the directory after it when `j` is IFD0
      followed by IFD1, and zero otherwise. */
  lemma DirectoryNext(app: App, big: bool, j: nat)
    requires AllSound(app) && j < |app| && WriteIfd(app[j], NextFlag(app, j), FIRST_IFD + Span(app, 0, j), big).Ok?
    ensures At(WriteIfd(app[j], NextFlag(app, j), FIRST_IFD + Span(app, 0, j), big).value.0, 2 + 12 * app[j].count,
               Put32(if NextFlag(app, j) then FIRST_IFD + Span(app, 0, j + 1) else 0, big))
  {
    SpanNext(app, j);
    WrittenNext(app[j], NextFlag(app, j), FIRST_IFD + Span(app, 0, j), big);
    NextTarget(app, j, big);
  }

  /** Where directory `j`'s next field sits in the directory area: after
      the directories before it, its count and its entries. */
  function NextAt(app: App, j: nat): nat
    requires j < |app|
  {
    Span(app, 0, j) + (2 + 12 * app[j].count)
  }

  /** The next field of directory `j` in the directory area. */
  lemma IfdsNext(app: App, big: bool, j: nat)
    requires AllSound(app) && j < |app| && WriteIfds(app, FIRST_IFD, big).Ok?
    ensures At(WriteIfds(app, FIRST_IFD, big).value, NextAt(app, j),
               Put32(if NextFlag(app, j) then FIRST_IFD + Span(app, 0, j + 1) else 0, big))
  {
    IfdsWindow(app, FIRST_IFD, big, j);
    DirectoryNext(app, big, j);
    var ifds := WriteIfds(app, FIRST_IFD, big).value;
    var out := WriteIfd(app[j], NextFlag(app, j), FIRST_IFD + Span(app, 0, j), big).value.0;
    var field := Put32(if NextFlag(app, j) then FIRST_IFD + Span(app, 0, j + 1) else 0, big);
    AtAt(ifds, Span(app, 0, j), out, 2 + 12 * app[j].count, field);
  }

  /** The next field of directory `j` in the image holds the position of
      the directory after it when `j` is IFD0 followed by IFD1, and zero
      otherwise: the image holds one chain IFD0 -> IFD1. */
  lemma NextLocates(app: App, big: bool, thumbnail: seq<byte>, j: nat)
    requires AllSound(app) && j < |app| && WriteTiff(app, big, thumbnail).Ok?
    ensures At(WriteTiff(app, big, thumbnail).value, FIRST_IFD + NextAt(app, j),
               Put32(if NextFlag(app, j) then FIRST_IFD + Span(app, 0, j + 1) else 0, big))
  {
    SoundWritable(app);
    TiffShape(app, big, thumbnail);
    IfdsNext(app, big, j);
    assert WriteIfds(app, FIRST_IFD, big).Ok?;
    assert At(WriteIfds(app, FIRST_IFD, big).value, NextAt(app, j), Put32(if NextFlag(app, j) then FIRST_IFD + Span(app, 0, j + 1) else 0, big));
    assert WriteTiff(app, big, thumbnail).Ok?;
    AtInTiff(app, big, thumbnail, NextAt(app, j), Put32(if NextFlag(app, j) then FIRST_IFD + Span(app, 0, j + 1) else 0, big));
  }

  /** The footprints of sound directories add up to an even number. */
  lemma {:induction false} SpanEven(app: App, i: nat, k: nat)
    requires AllSound(app) && i <= k <= |app|
    ensures Span(app, i, k) % 2 == 0
    decreases k - i
  {
    if i < k {
      SpanEven(app, i + 1, k);
      FootprintEven(app[i], Span(app, i + 1, k));
    }
  }

  /** Directories in ascending number start with IFD0 when it is there. */
  lemma SortedFirst(f: App)
    requires SortedKinds(f) && HasKind(f, Ifd0)
    ensures f[0].kind == Ifd0
  {
    var i :| 0 <= i < |f| && f[i].kind == Ifd0;
  }

  /** The laid-out segment starts with IFD0, the directory the header
      points at: the GPS pointer put creates it when it is missing, and the
      directory sort puts it first. */
  lemma FirstIsIfd0(app: App)
    requires LayOutReady(app)
    ensures |LayOut(app)| > 0 && LayOut(app)[0].kind == Ifd0
  {
    PrepareHasIfd0(app);
    LayOutStages(app);
    KindsDecideFind(Prepare(app), LayOut(app), Ifd0);
    SortedFirst(LayOut(app));
  }

  /** The GPS pointer put creates IFD0 when it is missing. */
  lemma PrepareHasIfd0(app: App)
    requires HasKind(app, InteropIfd) ==> HasKind(app, ExifIfd)
    ensures HasKind(Prepare(app), Ifd0)
  {
    GpsPutsKinds(app, Ifd0);
    SortKeepsKinds(GpsPuts(app), Ifd0);
  }
}
