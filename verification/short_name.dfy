/** The waypoint short name exif_waypt_from_exif_app derives from the
    image's file name (exif.cc:870-889). The C code walks a pointer `cx`
    along the name: past the last drive colon, then past the last
    backslash after it, then past the last slash after that, and finally
    cuts the rest at its first dot unless the dot is its first character.
    Positions stand for the pointers here.
 */
module ShortName {
  import opened Outcomes

  /** The characters the path is stripped at. */
  predicate IsSeparator(c: char) {
    c == ':' || c == '\\' || c == '/'
  }

  /** strrchr(cx, c) with `cx` at `lo`: the last `c` in `s[lo..hi]`. */
  function LastIn(s: string, lo: nat, hi: nat, c: char): (r: Option<nat>)
    requires lo <= hi <= |s|
    ensures r.Some? ==> lo <= r.value < hi && s[r.value] == c && forall j :: r.value < j < hi ==> s[j] != c
    ensures r.None? ==> forall j :: lo <= j < hi ==> s[j] != c
    decreases hi - lo
  {
    if hi == lo then None
    else if s[hi - 1] == c then Some(hi - 1)
    else LastIn(s, lo, hi - 1, c)
  }

  /** `if ((c = strrchr(cx, c))) cx = c + 1;` with `cx` at `k`. */
  function PastLast(s: string, k: nat, c: char): (r: nat)
    requires k <= |s|
    ensures k <= r <= |s|
    ensures r > k ==> s[r - 1] == c
    ensures forall j :: r <= j < |s| ==> s[j] != c
  {
    match LastIn(s, k, |s|, c)
    case None => k
    case Some(i) => i + 1
  }

  /** `name[k..]` is the base name: it holds no separator, and it starts
      the name or follows a separator. */
  predicate BaseAt(name: string, k: nat) {
    && k <= |name|
    && (k == 0 || IsSeparator(name[k - 1]))
    && forall j :: k <= j < |name| ==> !IsSeparator(name[j])
  }

  /** exif.cc:874-882: where `cx` stands after the three strrchr steps, at
      the drive colon, the backslash and the slash. */
  function BaseStart(name: string): (k: nat)
    ensures BaseAt(name, k)
  {
    var k1 := PastLast(name, 0, ':');
    var k2 := PastLast(name, k1, '\\');
    PastLast(name, k2, '/')
  }

  /** The base name starts at one place only: the three steps in this
      order find the same start as stripping at the last separator of any
      kind. */
  lemma BaseAtUnique(name: string, k1: nat, k2: nat)
    requires BaseAt(name, k1) && BaseAt(name, k2)
    ensures k1 == k2
  {
  }

  /** strchr(s, c): the first `c` in `s`. */
  function FirstIn(s: string, lo: nat, c: char): (r: Option<nat>)
    requires lo <= |s|
    ensures r.Some? ==> lo <= r.value < |s| && s[r.value] == c && forall j :: lo <= j < r.value ==> s[j] != c
    ensures r.None? ==> forall j :: lo <= j < |s| ==> s[j] != c
    decreases |s| - lo
  {
    if lo == |s| then None
    else if s[lo] == c then Some(lo)
    else FirstIn(s, lo + 1, c)
  }

  /** exif.cc:884-886: cut at the first dot, unless it is the first
      character. */
  function Stem(s: string): (r: string)
    ensures r <= s
    ensures |r| < |s| ==> 0 < |r| && s[|r|] == '.' && '.' !in r
    ensures |r| == |s| ==> '.' !in s || s[0] == '.'
  {
    match FirstIn(s, 0, '.')
    case Some(i) => if i == 0 then s else s[..i]
    case None => s
  }

  /** exif.cc:870-889: the short name of a waypoint taken from a file. */
  function ShortName(name: string): (r: string)
    ensures r <= name[BaseStart(name)..]
    ensures forall i :: 0 <= i < |r| ==> !IsSeparator(r[i])
    ensures '.' in r ==> r[0] == '.'
    ensures var base := name[BaseStart(name)..];
            && (|r| < |base| ==> 0 < |r| && base[|r|] == '.' && '.' !in r)
            && (|r| == |base| ==> '.' !in base || base[0] == '.')
  {
    var base := name[BaseStart(name)..];
    assert forall i :: 0 <= i < |base| ==> !IsSeparator(base[i]);
    Stem(base)
  }
}
