/** The catalog cache `course_info`: for every course id, the offerings that share it, keyed
    by offer number in the order the cache query returned them. The query itself is not part
    of this model; its rows are the input. */
module CourseCatalog {

  import opened Options
  import opened OrderedDicts
  import opened RequirementDicts

  type CourseId = int
  type OfferNbr = int

  /** What the description engine reads of one cached offering: its `course` label
      (discipline and catalog number), the message-only and blanket-credit flags, and its
      requirements dict (`None` when the column is null). */
  datatype Offering = Offering(course: string, isMesg: bool, isBkcr: bool, requirements: Option<Requirements>)

  /** One row of the cache query. */
  datatype CourseRow = CourseRow(
    courseId: CourseId,
    offerNbr: OfferNbr,
    course: string,
    isMesg: bool,
    isBkcr: bool,
    requirements: Option<Requirements>)

  type Catalog = map<CourseId, Dict<OfferNbr, Offering>>

  /** Offer numbers are dict keys, so each occurs once per course. */
  predicate ValidCatalog(catalog: Catalog) {
    forall courseId :: courseId in catalog ==> UniqueKeys(catalog[courseId])
  }

  /** `course_info[course_id]` on the `defaultdict`: no offerings for an unknown course. */
  function Offerings(catalog: Catalog, courseId: CourseId): (offerings: Dict<OfferNbr, Offering>)
    ensures courseId !in catalog ==> offerings == []
  {
    if courseId in catalog then catalog[courseId] else []
  }

  function OfferingOf(row: CourseRow): Offering {
    Offering(row.course, row.isMesg, row.isBkcr, row.requirements)
  }

  /** `course_info[row.course_id][row.offer_nbr] = {...}`. */
  function AddRow(catalog: Catalog, row: CourseRow): (result: Catalog)
    ensures result.Keys == catalog.Keys + {row.courseId}
    ensures Get(Offerings(result, row.courseId), row.offerNbr) == Some(OfferingOf(row))
    ensures forall courseId :: courseId != row.courseId ==> Offerings(result, courseId) == Offerings(catalog, courseId)
    ensures ValidCatalog(catalog) ==> ValidCatalog(result)
  {
    var offerings := Offerings(catalog, row.courseId);
    assert ValidCatalog(catalog) ==> UniqueKeys(Put(offerings, row.offerNbr, OfferingOf(row))) by {
      if ValidCatalog(catalog) { PutUnique(offerings, row.offerNbr, OfferingOf(row)); }
    }
    catalog[row.courseId := Put(offerings, row.offerNbr, OfferingOf(row))]
  }

  /** The cache after the rows have been added one after another; every entry is a real
      dict. */
  function CatalogOf(rows: seq<CourseRow>): (catalog: Catalog)
    ensures ValidCatalog(catalog)
  {
    if rows == [] then map[] else AddRow(CatalogOf(rows[..|rows| - 1]), rows[|rows| - 1])
  }

  /** The (offer number, offering) pairs of the rows for one course id, in row order. */
  function RowPairs(rows: seq<CourseRow>, courseId: CourseId): seq<(OfferNbr, Offering)> {
    if rows == [] then []
    else
      var r := RowPairs(rows[..|rows| - 1], courseId);
      var row := rows[|rows| - 1];
      if row.courseId == courseId then r + [(row.offerNbr, OfferingOf(row))] else r
  }

  predicate Keyed(row: CourseRow, courseId: CourseId, offerNbr: OfferNbr) {
    row.courseId == courseId && row.offerNbr == offerNbr
  }

  /** The offerings cached for a course are the dict built from that course's rows alone. */
  lemma {:induction false} CatalogOfOfferings(rows: seq<CourseRow>, courseId: CourseId)
    ensures Offerings(CatalogOf(rows), courseId) == FromPairs(RowPairs(rows, courseId))
  {
    if rows != [] {
      CatalogOfOfferings(rows[..|rows| - 1], courseId);
    }
  }

  /** Every course's offer numbers are unique, in the order the rows first gave them. */
  lemma CatalogOfValid(rows: seq<CourseRow>)
    ensures ValidCatalog(CatalogOf(rows))
    ensures forall courseId :: KeysOf(Offerings(CatalogOf(rows), courseId)) == Distinct(KeysOf(RowPairs(rows, courseId)))
  {
    forall courseId ensures KeysOf(Offerings(CatalogOf(rows), courseId)) == Distinct(KeysOf(RowPairs(rows, courseId)))
      && UniqueKeys(Offerings(CatalogOf(rows), courseId))
    {
      CatalogOfOfferings(rows, courseId);
      FromPairsKeys(RowPairs(rows, courseId));
    }
    var catalog := CatalogOf(rows);
    forall courseId | courseId in catalog ensures UniqueKeys(catalog[courseId]) {
      assert catalog[courseId] == Offerings(catalog, courseId);
    }
  }

  lemma {:induction false} RowPairsGet(rows: seq<CourseRow>, courseId: CourseId, offerNbr: OfferNbr)
    ensures Get(RowPairs(rows, courseId), offerNbr).None? <==>
      forall i :: 0 <= i < |rows| ==> !Keyed(rows[i], courseId, offerNbr)
    ensures forall i :: (0 <= i < |rows| && Keyed(rows[i], courseId, offerNbr)
                         && (forall j :: i < j < |rows| ==> !Keyed(rows[j], courseId, offerNbr)))
                        ==> Get(RowPairs(rows, courseId), offerNbr) == Some(OfferingOf(rows[i]))
  {
    if rows != [] {
      var init, row := rows[..|rows| - 1], rows[|rows| - 1];
      RowPairsGet(init, courseId, offerNbr);
      var r := RowPairs(init, courseId);
      if row.courseId == courseId {
        var e := r + [(row.offerNbr, OfferingOf(row))];
        assert e[..|e| - 1] == r;
      }
      assert forall i :: 0 <= i < |init| ==> rows[i] == init[i];
    }
  }

  /** Looking up an offer number in the cache finds the LAST row that had that course id and
      offer number, and finds nothing when no row had them. */
  lemma CatalogOfLookup(rows: seq<CourseRow>, courseId: CourseId, offerNbr: OfferNbr)
    ensures Get(Offerings(CatalogOf(rows), courseId), offerNbr).None? <==>
      forall i :: 0 <= i < |rows| ==> !Keyed(rows[i], courseId, offerNbr)
    ensures forall i :: (0 <= i < |rows| && Keyed(rows[i], courseId, offerNbr)
                         && (forall j :: i < j < |rows| ==> !Keyed(rows[j], courseId, offerNbr)))
                        ==> Get(Offerings(CatalogOf(rows), courseId), offerNbr) == Some(OfferingOf(rows[i]))
  {
    CatalogOfOfferings(rows, courseId);
    FromPairsGet(RowPairs(rows, courseId), offerNbr);
    RowPairsGet(rows, courseId, offerNbr);
  }

  lemma CatalogOfStep(rows: seq<CourseRow>, i: nat)
    requires i < |rows|
    ensures CatalogOf(rows[..i + 1]) == AddRow(CatalogOf(rows[..i]), rows[i])
  {
    assert rows[..i + 1][..i] == rows[..i];
  }

  /** The cache-filling loop over the query's rows. */
  method BuildCatalog(rows: seq<CourseRow>) returns (catalog: Catalog)
    ensures catalog == CatalogOf(rows)
    ensures ValidCatalog(catalog)
  {
    catalog := map[];
    var i := 0;
    while i < |rows|
      invariant 0 <= i <= |rows|
      invariant catalog == CatalogOf(rows[..i])
    {
      var row := rows[i];
      var offerings := if row.courseId in catalog then catalog[row.courseId] else [];
      CatalogOfStep(rows, i);
      catalog := catalog[row.courseId := Put(offerings, row.offerNbr, OfferingOf(row))];
      i := i + 1;
    }
    assert rows[..i] == rows;
  }
}
