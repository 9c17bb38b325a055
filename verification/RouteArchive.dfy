/** Archiving routes under mangled names, and restoring them. */
module RouteArchive {
  import opened Options
  import opened Text

  type Id = string

  const ARCHIVE_TAG := "__deleted_"

  predicate HasTag(value: string) {
    IndexOf(value, ARCHIVE_TAG, 0) >= 0
  }

  function Mangle(value: Option<string>, id: Id): Option<string> {
    match value
    case None => None
    case Some(v) => if HasTag(v) then value else Some(v + ARCHIVE_TAG + id)
  }

  function Unmangle(value: Option<string>, id: Id): Option<string> {
    match value
    case None => None
    case Some(v) =>
      if v == "" then value else
      var at := IndexOf(v, ARCHIVE_TAG + id, 0);
      if at < 0 then value else Some(v[..at])
  }

  // ---------------------------------------------------------------------
  // Where the tag can occur in a mangled name.
  // ---------------------------------------------------------------------

  /** The tag overlaps itself only in its last character. */
  lemma TagOverlap(d: nat)
    requires 0 < d < 10
    requires forall j | d <= j < 10 :: ARCHIVE_TAG[j] == ARCHIVE_TAG[j - d]
    ensures d == 9
  {
    assert ARCHIVE_TAG[d] == ARCHIVE_TAG[0] == '_';
    assert ARCHIVE_TAG[1] == '_' && ARCHIVE_TAG[2] == 'd';
  }

  /** An occurrence of the tag before the one that was appended starts nine characters earlier. */
  lemma EarlierTag(v: string, id: Id, k: nat)
    requires !HasTag(v) && k < |v| && OccursAt(v + ARCHIVE_TAG + id, ARCHIVE_TAG, k)
    ensures k + 9 == |v|
  {
    var s := v + ARCHIVE_TAG + id;
    assert s == v + (ARCHIVE_TAG + id);
    TagCrossesEnd(v, ARCHIVE_TAG + id, k);
    var d := |v| - k;
    forall j | d <= j < 10 ensures ARCHIVE_TAG[j] == ARCHIVE_TAG[j - d] {
      OccurrenceChar(s, ARCHIVE_TAG, k, j);
      assert s[k + j] == ARCHIVE_TAG[k + j - |v|];
    }
    TagOverlap(d);
  }

  /** A tag that is not in `v` cannot end inside it. */
  lemma TagCrossesEnd(v: string, rest: string, k: nat)
    requires !HasTag(v) && OccursAt(v + rest, ARCHIVE_TAG, k)
    ensures k + 10 > |v|
  {
    if k + 10 <= |v| {
      OccursInFirst(v, rest, k);
      assert false;
    }
  }

  lemma OccursInFirst(v: string, rest: string, k: nat)
    requires k + 10 <= |v| && OccursAt(v + rest, ARCHIVE_TAG, k)
    ensures HasTag(v)
  {
    assert v[k..k + 10] == (v + rest)[k..k + 10];
    assert OccursAt(v, ARCHIVE_TAG, k);
  }

  lemma TagPartOfOccurrence(s: string, id: Id, k: int)
    requires OccursAt(s, ARCHIVE_TAG + id, k)
    ensures OccursAt(s, ARCHIVE_TAG, k)
  {
    assert s[k..k + 10] == s[k..k + |ARCHIVE_TAG + id|][..10] == ARCHIVE_TAG;
  }

  /** The value ends in the tag but for its last character, and the id continues the overlap. */
  predicate Overlapping(v: string, id: Id) {
    && |v| >= 9 && v[|v| - 9..] == "__deleted"
    && id <= "_deleted_" + id
  }

  lemma OverlapOccurs(v: string, id: Id)
    requires |v| >= 9
    ensures OccursAt(v + ARCHIVE_TAG + id, ARCHIVE_TAG + id, |v| - 9) <==> Overlapping(v, id)
  {
    var s, p, k := v + ARCHIVE_TAG + id, ARCHIVE_TAG + id, |v| - 9;
    var window := s[k..k + |p|];
    assert window == v[k..] + "_" + ("_deleted_" + id)[..|id|] by {
      assert s == v + ("_" + ("_deleted_" + id));
      assert s[k..] == v[k..] + ("_" + ("_deleted_" + id));
    }
    assert p == "__deleted" + "_" + id;
    assert p[..9] == "__deleted" && p[10..] == id;
    assert window[..9] == v[k..] && window[10..] == ("_deleted_" + id)[..|id|];
  }

  lemma OwnTagOccurs(v: string, id: Id)
    ensures OccursAt(v + ARCHIVE_TAG + id, ARCHIVE_TAG + id, |v|) && (v + ARCHIVE_TAG + id)[..|v|] == v
  {
    var s, p := v + ARCHIVE_TAG + id, ARCHIVE_TAG + id;
    assert s[|v|..|v| + |p|] == p;
  }

  lemma EarlierOccurrenceOverlaps(v: string, id: Id, k: nat)
    requires !HasTag(v) && k < |v| && OccursAt(v + ARCHIVE_TAG + id, ARCHIVE_TAG + id, k)
    ensures Overlapping(v, id)
  {
    TagPartOfOccurrence(v + ARCHIVE_TAG + id, id, k);
    EarlierTag(v, id, k);
    OverlapOccurs(v, id);
  }

  /** An untagged value comes back unless the appended tag overlaps its end. */
  lemma UntaggedComesBackIff(v: string, id: Id)
    requires !HasTag(v)
    ensures Unmangle(Some(v + ARCHIVE_TAG + id), id) == Some(v) <==> !Overlapping(v, id)
  {
    var s, p := v + ARCHIVE_TAG + id, ARCHIVE_TAG + id;
    OwnTagOccurs(v, id);
    if |v| >= 9 { OverlapOccurs(v, id); }
    var at := IndexOf(s, p, 0);
    assert 0 <= at <= |v|;
    if at < |v| { EarlierOccurrenceOverlaps(v, id, at); }
    assert |s[..at]| == at;
  }

  /** Archiving would lose the end of the value: an old archive name of the same id, or an overlap. */
  predicate LosesItsEnd(v: string, id: Id) {
    if HasTag(v) then IndexOf(v, ARCHIVE_TAG + id, 0) >= 0 else Overlapping(v, id)
  }

  /** Archiving any value and restoring it gives it back exactly when its end is not taken for a tag. */
  lemma UnmangleUndoesMangleIff(v: string, id: Id)
    ensures Unmangle(Mangle(Some(v), id), id) == Some(v) <==> !LosesItsEnd(v, id)
  {
    if HasTag(v) {
      var at := IndexOf(v, ARCHIVE_TAG + id, 0);
      if at >= 0 { assert |v[..at]| < |v|; }
    } else {
      UntaggedComesBackIff(v, id);
    }
  }

  /** With an id that does not start with an underscore every untagged value comes back, mangled or not. */
  lemma UnmangleUndoesMangle(v: string, id: Id)
    requires !HasTag(v) && id != "" && id[0] != '_'
    ensures Unmangle(Some(v + ARCHIVE_TAG + id), id) == Some(v)
    ensures Unmangle(Mangle(Some(v), id), id) == Some(v)
    ensures Unmangle(Some(v), id) == Some(v)
  {
    assert !Overlapping(v, id) by { assert ("_deleted_" + id)[0] == '_'; }
    UntaggedComesBackIff(v, id);
    var at := IndexOf(v, ARCHIVE_TAG + id, 0);
    if at >= 0 { TagPartOfOccurrence(v, id, at); }
  }

  /** An archive that cannot be undone: the value ends in a cut tag and the id starts like the rest of it. */
  lemma OverlapLosesTheEnd()
    ensures !HasTag("a__deleted") && Unmangle(Mangle(Some("a__deleted"), "_"), "_") != Some("a__deleted")
  {
    var v := "a__deleted";
    var at := IndexOf(v, ARCHIVE_TAG, 0);
    if at >= 0 { OccurrenceChar(v, ARCHIVE_TAG, at, 0); }
    assert v[1..] == "__deleted" && "_" <= "_deleted_" + "_";
    UnmangleUndoesMangleIff(v, "_");
  }

  // ----- Real ids -----

  /** Ids are cuids: lower-case letters and digits, so never an underscore. */
  predicate IsId(id: Id) {
    id != "" && Free(id, '_')
  }

  /** The value holds an archive ending of this very id. */
  predicate HoldsEnding(v: string, id: Id) {
    IndexOf(v, ARCHIVE_TAG + id, 0) >= 0
  }

  /** The ending of an id overlaps itself nowhere: shifted by `d`, it differs at the place returned. */
  lemma EndingDoesNotOverlap(id: Id, d: nat) returns (j: nat)
    requires IsId(id) && 0 < d < |ARCHIVE_TAG + id|
    ensures d <= j < |ARCHIVE_TAG + id| && (ARCHIVE_TAG + id)[j] != (ARCHIVE_TAG + id)[j - d]
  {
    var p := ARCHIVE_TAG + id;
    assert p[0] == '_' && p[1] == '_' && p[10] == id[0];
    if d >= 10 {
      assert p[d] == id[d - 10];
      j := d;
    } else if d == 9 {
      j := 10;
    } else {
      j := NoTagOverlap(d);
      assert p[j] == ARCHIVE_TAG[j] && p[j - d] == ARCHIVE_TAG[j - d];
    }
  }

  lemma NoTagOverlap(d: nat) returns (j: nat)
    requires 0 < d < 9
    ensures d <= j < 10 && ARCHIVE_TAG[j] != ARCHIVE_TAG[j - d]
  {
    if j: nat :| d <= j < 10 && ARCHIVE_TAG[j] != ARCHIVE_TAG[j - d] {
      return j;
    }
    TagOverlap(d);
  }

  /** An occurrence that reaches into an appended copy of the same text shifts that text onto itself. */
  lemma ShiftedOnto(v: string, p: string, k: nat, j: nat)
    requires k < |v| && OccursAt(v + p, p, k) && |v| - k <= j < |p|
    ensures p[j] == p[j - (|v| - k)]
  {
    OccurrenceChar(v + p, p, k, j);
  }

  lemma OccursInValue(v: string, p: string, k: nat)
    requires k + |p| <= |v| && OccursAt(v + p, p, k)
    ensures OccursAt(v, p, k)
  {
    assert (v + p)[k..k + |p|] == v[k..k + |p|];
  }

  /** An occurrence of the ending before the appended one lies wholly inside the value. */
  lemma EarlierEndingIsInside(v: string, id: Id, k: nat)
    requires IsId(id) && k < |v| && OccursAt(v + (ARCHIVE_TAG + id), ARCHIVE_TAG + id, k)
    ensures OccursAt(v, ARCHIVE_TAG + id, k)
  {
    var p, d := ARCHIVE_TAG + id, |v| - k;
    if d < |p| {
      var j := EndingDoesNotOverlap(id, d);
      ShiftedOnto(v, p, k, j);
    } else {
      OccursInValue(v, p, k);
    }
  }

  /** For real ids an appended ending is found again exactly when the value holds none. */
  lemma AppendedComesBackIff(v: string, id: Id)
    requires IsId(id)
    ensures Unmangle(Some(v + ARCHIVE_TAG + id), id) == Some(v) <==> !HoldsEnding(v, id)
  {
    var p := ARCHIVE_TAG + id;
    var s := v + p;
    assert v + ARCHIVE_TAG + id == s;
    OwnTagOccurs(v, id);
    var at, inside := IndexOf(s, p, 0), IndexOf(v, p, 0);
    if inside >= 0 {
      OccursInLonger(v, p, p, inside);
    } else if at < |v| {
      EarlierEndingIsInside(v, id, at);
    }
    assert |s[..at]| == at;
  }

  lemma OccursInLonger(v: string, more: string, p: string, k: nat)
    requires OccursAt(v, p, k)
    ensures OccursAt(v + more, p, k)
  {
    assert (v + more)[k..k + |p|] == v[k..k + |p|];
  }

  /** So for real ids, by either archive operation, a value comes back exactly when it holds no ending of its own id. */
  lemma ComesBackIff(v: string, id: Id)
    requires IsId(id)
    ensures Unmangle(Mangle(Some(v), id), id) == Some(v) <==> !HoldsEnding(v, id)
    ensures Unmangle(Some(v + ARCHIVE_TAG + id), id) == Some(v) <==> !HoldsEnding(v, id)
    ensures Unmangle(Some(v), id) == Some(v) <==> !HoldsEnding(v, id)
  {
    AppendedComesBackIff(v, id);
    var at := IndexOf(v, ARCHIVE_TAG + id, 0);
    if at >= 0 { assert |v[..at]| < |v|; }
  }

  /** A path edited to hold the archive ending of its own route is cut at it, by either operation. */
  lemma EditedPathIsCut()
    ensures var path, id := "/r/x__deleted_c1", "c1";
            && IsId(id) && HoldsEnding(path, id)
            && Unmangle(Mangle(Some(path), id), id) == Some("/r/x")
            && Unmangle(Some(path + ARCHIVE_TAG + id), id) == Some("/r/x")
  {
    var v, id := "/r/x", "c1";
    var path, p := "/r/x__deleted_c1", ARCHIVE_TAG + id;
    assert path == v + ARCHIVE_TAG + id;
    OwnTagOccurs(v, id);
    var none := IndexOf(v, p, 0);
    AppendedComesBackIff(v, id);
    CutOfTwo(v, id);
    TagPartOfOccurrence(path, id, |v|);
  }

  /** Of two endings the first one counts. */
  lemma CutOfTwo(v: string, id: Id)
    requires IsId(id) && !HoldsEnding(v, id)
    ensures var once := v + ARCHIVE_TAG + id; Unmangle(Some(once + ARCHIVE_TAG + id), id) == Some(v)
  {
    var p := ARCHIVE_TAG + id;
    var once := v + ARCHIVE_TAG + id;
    var twice := once + ARCHIVE_TAG + id;
    assert once == v + p && twice == once + p;
    OwnTagOccurs(v, id);
    assert twice[|v|..|v| + |p|] == once[|v|..|v| + |p|];
    assert OccursAt(twice, p, |v|);
    var at := IndexOf(twice, p, 0);
    if at < |v| {
      EarlierEndingIsInside(once, id, at);
      EarlierEndingIsInside(v, id, at);
    }
    assert twice[..|v|] == v;
  }

  /** Mangled names of routes with different ids never collide. */
  lemma MangledNamesAreDistinct(v: string, id: Id, w: string, other: Id)
    requires !HasTag(v) && !HasTag(w) && id != other
    requires (id == "" || id[0] != '_') && (other == "" || other[0] != '_')
    ensures v + ARCHIVE_TAG + id != w + ARCHIVE_TAG + other
  {
    assert (v + ARCHIVE_TAG + id)[|v| + 10..] == id && (w + ARCHIVE_TAG + other)[|w| + 10..] == other;
    if v + ARCHIVE_TAG + id == w + ARCHIVE_TAG + other {
      if |v| < |w| {
        EarlierName(v, id, w, other);
      } else if |w| < |v| {
        EarlierName(w, other, v, id);
      }
    }
  }

  /** Two spellings of one mangled name: the id of the shorter value starts with an underscore. */
  lemma EarlierName(v: string, id: Id, w: string, other: Id)
    requires v + ARCHIVE_TAG + id == w + ARCHIVE_TAG + other && |v| < |w| && !HasTag(w)
    ensures id != "" && id[0] == '_'
  {
    var s := v + ARCHIVE_TAG + id;
    assert s[|v|..|v| + 10] == ARCHIVE_TAG;
    EarlierTag(w, other, |v|);
    assert s[|v| + 10] == (w + ARCHIVE_TAG + other)[|w| + 1] == ARCHIVE_TAG[1] == '_';
  }

  /** For real ids the appended endings tell the routes apart, whatever the values hold. */
  lemma AppendedNamesAreDistinct(v: string, id: Id, w: string, other: Id)
    requires IsId(id) && IsId(other) && id != other
    ensures v + ARCHIVE_TAG + id != w + ARCHIVE_TAG + other
  {
    var s := v + ARCHIVE_TAG + id;
    EndingStarts(v, id, s);
    if s == w + ARCHIVE_TAG + other { EndingStarts(w, other, s); }
  }

  /** The id is what follows the last underscore. */
  lemma EndingStarts(v: string, id: Id, s: string)
    requires IsId(id) && s == v + ARCHIVE_TAG + id
    ensures s[|v| + 9] == '_' && s[|v| + 10..] == id
    ensures forall i | |v| + 10 <= i < |s| :: s[i] != '_'
  {
  }

  /** Two names, archived by `deleteRoute`, with the values that lead to one name. */
  predicate SameArchiveName(v: string, id: Id, w: string, other: Id) {
    if HasTag(v) then (if HasTag(w) then v == w else v == w + ARCHIVE_TAG + other)
    else HasTag(w) && w == v + ARCHIVE_TAG + id
  }

  /**
   * For real ids, two routes come to the same archived name exactly when a value that holds the tag,
   * and so is left alone, is already that name.
   */
  lemma ArchivedNamesCollideIff(v: string, id: Id, w: string, other: Id)
    requires IsId(id) && IsId(other) && id != other
    ensures Mangle(Some(v), id) == Mangle(Some(w), other) <==> SameArchiveName(v, id, w, other)
  {
    AppendedNamesAreDistinct(v, id, w, other);
  }

  /** A value that is the archived name of another route stays that name. */
  lemma TaggedNameCollides(v: string, id: Id, other: Id)
    requires !HasTag(v)
    ensures Mangle(Some(v + ARCHIVE_TAG + id), other) == Mangle(Some(v), id)
  {
    var s := v + ARCHIVE_TAG + id;
    assert s[|v|..|v| + 10] == ARCHIVE_TAG;
    assert OccursAt(s, ARCHIVE_TAG, |v|);
  }

  // ---------------------------------------------------------------------
  // The route table.
  // ---------------------------------------------------------------------

  datatype Status = Draft | Published

  datatype Route = Route(name: string, publicPath: string, slug: Option<string>, deletedAt: Option<int>,
                         isActive: bool, isProtected: bool, status: Status)

  type Table = map<Id, Route>

  datatype Outcome = Done | NotFound | StillActive | NotConfirmed

  predicate IsLive(table: Table, id: Id) {
    id in table && table[id].deletedAt.None?
  }

  /** A route as `deleteRoute` archives it. */
  function Archived(r: Route, id: Id, now: int): Route {
    r.(deletedAt := Some(now), isActive := false,
       publicPath := Mangle(Some(r.publicPath), id).value, slug := Mangle(r.slug, id))
  }

  /** A route as `bulkDelete` archives it: the path always mangled, the slug left alone. */
  function BulkArchived(r: Route, id: Id, now: int): Route {
    r.(deletedAt := Some(now), isActive := false, publicPath := r.publicPath + ARCHIVE_TAG + id)
  }

  function Tail5(id: Id): string {
    if |id| <= 5 then id else id[|id| - 5..]
  }

  predicate PathTaken(table: Table, id: Id, path: string) {
    exists other | other in table && other != id :: IsLive(table, other) && table[other].publicPath == path
  }

  predicate SlugTaken(table: Table, id: Id, slug: string) {
    exists other | other in table && other != id :: IsLive(table, other) && table[other].slug == Some(slug)
  }

  /** An archived route as `restoreRoute` brings it back. */
  function Restored(table: Table, id: Id): Route
    requires id in table
  {
    var r := table[id];
    var path := Unmangle(Some(r.publicPath), id).value;
    var slug := Unmangle(r.slug, id);
    r.(deletedAt := None, isActive := false, status := Draft,
       publicPath := if PathTaken(table, id, path) then path + "-restored-" + Tail5(id) else path,
       slug := if slug.Some? && slug.value != "" && SlugTaken(table, id, slug.value)
               then Some(slug.value + "-restored-" + Tail5(id)) else slug)
  }

  class RouteTable {
    var routes: Table

    constructor ()
      ensures routes == map[]
    {
      routes := map[];
    }

    method DeleteRoute(id: Id, confirmName: Option<string>, now: int) returns (outcome: Outcome)
      modifies this
      ensures outcome == (if !IsLive(old(routes), id) then NotFound
                          else if old(routes)[id].isActive then StillActive
                          else if old(routes)[id].isProtected && confirmName != Some(old(routes)[id].name)
                          then NotConfirmed
                          else Done)
      ensures routes == if outcome.Done? then old(routes)[id := Archived(old(routes)[id], id, now)] else old(routes)
    {
      if id !in routes || routes[id].deletedAt.Some? { return NotFound; }
      var route := routes[id];
      if route.isActive { return StillActive; }
      if route.isProtected && confirmName != Some(route.name) { return NotConfirmed; }
      routes := routes[id := route.(deletedAt := Some(now), isActive := false,
                                    publicPath := Mangle(Some(route.publicPath), id).value,
                                    slug := Mangle(route.slug, id))];
      return Done;
    }

    method BulkDelete(ids: set<Id>, now: int) returns (count: nat)
      modifies this
      ensures var found := set id | id in ids && IsLive(old(routes), id);
              && count == |found|
              && routes.Keys == old(routes).Keys
              && forall id | id in routes ::
                   routes[id] == if id in found then BulkArchived(old(routes)[id], id, now) else old(routes)[id]
    {
      var found := set id | id in ids && id in routes && routes[id].deletedAt.None?;
      assert found == set id | id in ids && IsLive(routes, id);
      count := |found|;
      var todo := found;
      while todo != {}
        invariant todo <= found <= routes.Keys == old(routes).Keys
        invariant forall id | id in routes ::
                    routes[id] == if id in found - todo then BulkArchived(old(routes)[id], id, now) else old(routes)[id]
        decreases todo
      {
        var id :| id in todo;
        var r := routes[id];
        routes := routes[id := r.(deletedAt := Some(now), isActive := false,
                                  publicPath := r.publicPath + ARCHIVE_TAG + id)];
        todo := todo - {id};
      }
    }

    method RestoreRoute(id: Id) returns (outcome: Outcome)
      modifies this
      ensures outcome == if id in old(routes) && old(routes)[id].deletedAt.Some? then Done else NotFound
      ensures routes == if outcome.Done? then old(routes)[id := Restored(old(routes), id)] else old(routes)
    {
      if id !in routes || routes[id].deletedAt.None? { return NotFound; }
      var route := routes[id];
      var originalPath := Unmangle(Some(route.publicPath), id).value;
      var originalSlug := Unmangle(route.slug, id);
      if exists other | other in routes && other != id ::
           IsLive(routes, other) && routes[other].publicPath == originalPath {
        originalPath := originalPath + "-restored-" + Tail5(id);
      }
      if originalSlug.Some? && originalSlug.value != "" {
        var slug := originalSlug.value;
        if exists other | other in routes && other != id :: IsLive(routes, other) && routes[other].slug == Some(slug) {
          originalSlug := Some(slug + "-restored-" + Tail5(id));
        }
      }
      routes := routes[id := route.(deletedAt := None, isActive := false, status := Draft,
                                    publicPath := originalPath, slug := originalSlug)];
      return Done;
    }
  }

  // ---------------------------------------------------------------------
  // Archiving and restoring.
  // ---------------------------------------------------------------------

  /** The route's path or slug was taken by a live route meanwhile. */
  predicate NameTaken(r: Route, id: Id, table: Table) {
    || PathTaken(table, id, r.publicPath)
    || (r.slug.Some? && r.slug.value != "" && SlugTaken(table, id, r.slug.value))
  }

  /** The path or the slug holds an archive ending of the route's own id. */
  predicate NamesHoldEnding(r: Route, id: Id) {
    HoldsEnding(r.publicPath, id) || (r.slug.Some? && HoldsEnding(r.slug.value, id))
  }

  /** A name that was cut is not the name, with the suffix or without. */
  lemma CutNameDiffers(v: string, archived: string, id: Id)
    requires IsId(id) && HoldsEnding(v, id) && v <= archived
    ensures var cut := Unmangle(Some(archived), id).value;
            cut != v && cut + "-restored-" + Tail5(id) != v
  {
    var p := ARCHIVE_TAG + id;
    var k := IndexOf(v, p, 0);
    assert archived[k..k + |p|] == v[k..k + |p|];
    assert OccursAt(archived, p, k);
    var at := IndexOf(archived, p, 0);
    OccurrenceChar(archived, p, at, 0);
    assert v[at] == archived[at] == '_';
    var renamed := archived[..at] + "-restored-" + Tail5(id);
    assert renamed[at] == '-';
  }

  /** A name that is not cut comes back, unless it was taken. */
  lemma RestoredPath(r: Route, id: Id, now: int, table: Table)
    requires IsId(id)
    requires id in table && (table[id] == Archived(r, id, now) || table[id] == BulkArchived(r, id, now))
    ensures Restored(table, id).publicPath == r.publicPath <==>
            !HoldsEnding(r.publicPath, id) && !PathTaken(table, id, r.publicPath)
  {
    ComesBackIff(r.publicPath, id);
    SuffixedDiffers(r.publicPath, id);
    if HoldsEnding(r.publicPath, id) { CutNameDiffers(r.publicPath, table[id].publicPath, id); }
  }

  lemma RestoredSlug(r: Route, id: Id, now: int, table: Table)
    requires IsId(id)
    requires id in table && (table[id] == Archived(r, id, now) || table[id] == BulkArchived(r, id, now))
    ensures Restored(table, id).slug == r.slug <==>
            (r.slug.Some? ==>
               !HoldsEnding(r.slug.value, id) && !(r.slug.value != "" && SlugTaken(table, id, r.slug.value)))
  {
    if r.slug.Some? {
      ComesBackIff(r.slug.value, id);
      SuffixedDiffers(r.slug.value, id);
      if HoldsEnding(r.slug.value, id) { CutNameDiffers(r.slug.value, table[id].slug.value, id); }
    }
  }

  /**
   * A route archived by either operation and restored later, from any table in which it was left
   * alone, is itself again (inactive and a draft) exactly when neither of its names was taken and
   * neither holds an archive ending of its own id.
   */
  lemma RestoreUndoesArchiveIff(r: Route, id: Id, now: int, table: Table)
    requires IsId(id)
    requires id in table && (table[id] == Archived(r, id, now) || table[id] == BulkArchived(r, id, now))
    ensures Restored(table, id) == r.(deletedAt := None, isActive := false, status := Draft) <==>
            !NameTaken(r, id, table) && !NamesHoldEnding(r, id)
  {
    RestoredPath(r, id, now, table);
    RestoredSlug(r, id, now, table);
  }

  lemma SuffixedDiffers(v: string, id: Id)
    ensures v + "-restored-" + Tail5(id) != v
  {
    assert |v + "-restored-" + Tail5(id)| > |v|;
  }

  /** A restored route keeps its names exactly when no other live route holds them; else it steps aside. */
  lemma RestoreMindsTheLiving(table: Table, id: Id)
    requires id in table
    ensures var r, path := Restored(table, id), Unmangle(Some(table[id].publicPath), id).value;
            r.publicPath == path <==>
            forall other | other in table && other != id && table[other].deletedAt == None ::
              table[other].publicPath != path
    ensures var r, slug := Restored(table, id), Unmangle(table[id].slug, id);
            slug.Some? && slug.value != "" ==>
              (r.slug == slug <==>
               forall other | other in table && other != id && table[other].deletedAt == None ::
                 table[other].slug != slug)
  {
    var path, slug := Unmangle(Some(table[id].publicPath), id).value, Unmangle(table[id].slug, id);
    SuffixedDiffers(path, id);
    if slug.Some? { SuffixedDiffers(slug.value, id); }
  }

  /** When a name was taken meanwhile, the restored route steps aside to one with the last five characters of its id. */
  lemma RestoreStepsAside(r: Route, head: string, tail: string, now: int, table: Table)
    requires |tail| == 5 || (|tail| < 5 && head == "")
    requires IsId(head + tail) && !HoldsEnding(r.publicPath, head + tail)
    requires var id := head + tail;
             id in table && (table[id] == Archived(r, id, now) || table[id] == BulkArchived(r, id, now))
    ensures var id := head + tail;
            Restored(table, id).publicPath
            == if PathTaken(table, id, r.publicPath) then r.publicPath + "-restored-" + tail else r.publicPath
  {
    var id := head + tail;
    assert Tail5(id) == tail;
    ComesBackIff(r.publicPath, id);
  }

  /**
   * Archived either way, a route is neither live nor active, is dated so that it can be restored, and
   * stands in the way of no path: what is taken is what the other routes take.
   */
  lemma ArchiveTakesOut(table: Table, id: Id, archived: Route, now: int)
    requires IsLive(table, id)
    requires archived == Archived(table[id], id, now) || archived == BulkArchived(table[id], id, now)
    ensures !IsLive(table[id := archived], id) && !archived.isActive && archived.deletedAt == Some(now)
    ensures forall other, path ::
              PathTaken(table[id := archived], other, path) <==> PathTaken(table - {id}, other, path)
  {
    var after, others := table[id := archived], table - {id};
    assert forall o :: IsLive(after, o) <==> IsLive(others, o);
    assert forall o | IsLive(after, o) :: after[o] == others[o];
    forall other, path ensures PathTaken(after, other, path) <==> PathTaken(others, other, path) {
      if PathTaken(after, other, path) {
        var o :| o in after && o != other && IsLive(after, o) && after[o].publicPath == path;
        assert o in others;
      }
    }
  }

  /** The row itself gives up the path for a new route: in bulk always, otherwise unless the path holds the tag. */
  lemma ArchiveGivesUpPathIff(r: Route, id: Id, now: int)
    ensures BulkArchived(r, id, now).publicPath != r.publicPath
    ensures Archived(r, id, now).publicPath != r.publicPath <==> !HasTag(r.publicPath)
  {
    assert |r.publicPath + ARCHIVE_TAG + id| > |r.publicPath|;
  }
}
