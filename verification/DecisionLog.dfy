/** The decision log of accepted widenings: its entries, the relationships every valid
    log obeys, and what those relationships imply for whole logs. */
module DecisionLog {
  import opened Json

  datatype Authority = Accept | Refuse

  datatype Source = Source(id: string, snapshot: string)

  /** The evidence a finding-level decision is about.  The source and the case id are
      present together or not at all. */
  datatype Origin = Origin(source: Source, caseId: string)

  datatype Reference = Reference(id: string, revision: int)

  datatype LegacyRow = LegacyRow(summary: string, decidedAt: Option<string>)

  /** A decision before the store gives it an identity. */
  datatype Entry = Entry(
    criterion: string,
    authority: Authority,
    rationale: string,
    operator: string,
    origin: Option<Origin>,
    offerEntryId: Option<string>,
    legacyRow: Option<LegacyRow>,
    supersedes: Option<Reference>)

  datatype Decision = Decision(id: string, revision: int, entry: Entry) {
    function Ref(): Reference {
      Reference(id, revision)
    }
  }

  datatype Feature = Feature(repository: string, feature: string)

  datatype State = State(feature: Feature, decisions: seq<Decision>)

  const MAX_REFERENCE_LENGTH := 256
  const MAX_TEXT_LENGTH := 8_000
  const MAX_DECISIONS := 512

  // ---------- well-formed single values ----------

  predicate Bounded(s: string, maxLength: nat) {
    !Blank(s) && |s| <= maxLength
  }

  predicate BoundedReference(s: string) {
    Bounded(s, MAX_REFERENCE_LENGTH)
  }

  predicate BoundedText(s: string) {
    Bounded(s, MAX_TEXT_LENGTH)
  }

  predicate WellFormedFeature(f: Feature) {
    BoundedReference(f.repository) && BoundedReference(f.feature)
  }

  predicate WellFormedEntry(e: Entry) {
    && BoundedReference(e.criterion)
    && BoundedText(e.rationale)
    && BoundedReference(e.operator)
    && (e.origin.Some? ==>
          && BoundedReference(e.origin.value.source.id)
          && BoundedText(e.origin.value.source.snapshot)
          && BoundedReference(e.origin.value.caseId))
    && (e.offerEntryId.Some? ==> e.origin.Some? && BoundedReference(e.offerEntryId.value))
    && (e.legacyRow.Some? ==>
          && BoundedText(e.legacyRow.value.summary)
          && (e.legacyRow.value.decidedAt.Some? ==> BoundedReference(e.legacyRow.value.decidedAt.value)))
    && (e.supersedes.Some? ==>
          && e.offerEntryId.Some?
          && BoundedReference(e.supersedes.value.id)
          && e.supersedes.value.revision >= 1)
  }

  predicate WellFormedDecision(d: Decision) {
    BoundedReference(d.id) && d.revision >= 1 && WellFormedEntry(d.entry)
  }

  // ---------- relationships between decisions ----------

  /** Two decisions belong to one case when both name the same case and the same source.
      A criterion decision, which names neither, belongs to no case. */
  predicate SameCase(a: Entry, b: Entry) {
    a.origin.Some? && a.origin == b.origin
  }

  /** The index of the last decision before `end` in the case of `e`, or -1. */
  function LastOfCase(ds: seq<Decision>, end: nat, e: Entry): (p: int)
    requires end <= |ds|
    ensures -1 <= p < end
    ensures p >= 0 ==> SameCase(ds[p].entry, e)
    ensures forall k :: p < k < end ==> !SameCase(ds[k].entry, e)
  {
    if end == 0 then -1
    else if SameCase(ds[end - 1].entry, e) then end - 1
    else LastOfCase(ds, end - 1, e)
  }

  predicate Numbered(ds: seq<Decision>) {
    forall i :: 0 <= i < |ds| ==> ds[i].revision == i + 1
  }

  predicate UniqueIds(ds: seq<Decision>) {
    forall i, j :: 0 <= i < j < |ds| ==> ds[i].id != ds[j].id
  }

  predicate OfferUsed(ds: seq<Decision>, offer: string) {
    exists k :: 0 <= k < |ds| && ds[k].entry.offerEntryId == Some(offer)
  }

  /** Whether `e` may follow the decisions `ds`: a reused offer must be the offer of the
      case's head, and only a revision of that head may follow it. */
  predicate MayFollow(ds: seq<Decision>, e: Entry) {
    var p := LastOfCase(ds, |ds|, e);
    && (e.offerEntryId.Some? && OfferUsed(ds, e.offerEntryId.value) ==>
          && p >= 0
          && ds[p].entry.offerEntryId == e.offerEntryId
          && e.supersedes == Some(ds[p].Ref()))
    && (e.supersedes.None? ==> p < 0)
    && (e.supersedes.Some? ==>
          && e.offerEntryId.Some?
          && p >= 0
          && e.supersedes == Some(ds[p].Ref()))
  }

  predicate ValidRelationships(ds: seq<Decision>) {
    forall i :: 0 <= i < |ds| ==> MayFollow(ds[..i], ds[i].entry)
  }

  predicate AllWellFormed(ds: seq<Decision>) {
    forall i :: 0 <= i < |ds| ==> WellFormedDecision(ds[i])
  }

  /** The conditions on a log that relate its decisions to each other. */
  predicate Linked(ds: seq<Decision>) {
    UniqueIds(ds) && Numbered(ds) && ValidRelationships(ds)
  }

  /** The condition under which a stored list of decisions is accepted. */
  predicate ValidLog(ds: seq<Decision>) {
    |ds| <= MAX_DECISIONS && AllWellFormed(ds) && Linked(ds)
  }

  predicate ValidState(s: State) {
    WellFormedFeature(s.feature) && ValidLog(s.decisions)
  }

  lemma {:induction false} LastOfCasePrefix(ds: seq<Decision>, n: nat, end: nat, e: Entry)
    requires end <= n <= |ds|
    ensures LastOfCase(ds[..n], end, e) == LastOfCase(ds, end, e)
  {
    if end == 0 {
    } else {
      LastOfCasePrefix(ds, n, end - 1, e);
    }
  }

  /** The relationship check as the store runs it: one pass that keeps the set of offers
      seen so far, returning at the first decision that breaks a rule. */
  method HasValidRelationships(ds: seq<Decision>) returns (ok: bool)
    requires Numbered(ds)
    ensures ok <==> ValidRelationships(ds)
  {
    hide OfferUsed, LastOfCase, SameCase;
    var offers: set<string> := {};
    NoOffers();
    for i := 0 to |ds|
      invariant forall o :: o in offers <==> OfferUsed(ds[..i], o)
      invariant forall k :: 0 <= k < i ==> MayFollow(ds[..k], ds[k].entry)
    {
      var e := ds[i].entry;
      ghost var may := MayFollow(ds[..i], e);
      var seen := ds[..ds[i].revision - 1];
      var p := LastOfCase(seen, |seen|, e);
      var named := p >= 0 && e.supersedes == Some(seen[p].Ref());
      if e.offerEntryId.Some? && e.offerEntryId.value in offers {
        if p < 0 || seen[p].entry.offerEntryId != e.offerEntryId || !named {
          assert !may;
          return false;
        }
      }
      OffersExtend(ds, i);
      if e.offerEntryId.Some? {
        offers := offers + {e.offerEntryId.value};
      }
      if e.supersedes.None? {
        if p >= 0 {
          assert !may;
          return false;
        }
      } else if e.offerEntryId.None? || !named {
        assert !may;
        return false;
      }
      assert may;
    }
    return true;
  }

  lemma NoOffers()
    ensures forall o :: !OfferUsed([], o)
  {
  }

  lemma OffersExtend(ds: seq<Decision>, i: nat)
    requires i < |ds|
    ensures forall o :: OfferUsed(ds[..i + 1], o) <==> OfferUsed(ds[..i], o) || ds[i].entry.offerEntryId == Some(o)
  {
    forall o
      ensures OfferUsed(ds[..i + 1], o) <==> OfferUsed(ds[..i], o) || ds[i].entry.offerEntryId == Some(o)
    {
      if OfferUsed(ds[..i], o) {
        var k :| 0 <= k < i && ds[..i][k].entry.offerEntryId == Some(o);
        assert ds[..i + 1][k].entry.offerEntryId == Some(o);
      }
      if ds[i].entry.offerEntryId == Some(o) {
        assert ds[..i + 1][i].entry.offerEntryId == Some(o);
      }
    }
  }

  // ---------- case chains ----------

  /** The indices of the decisions of one case, newest first, starting at `i`. */
  function CaseHistory(ds: seq<Decision>, end: nat, e: Entry): (h: seq<nat>)
    requires end <= |ds|
    ensures forall k :: 0 <= k < |h| ==> h[k] < end && SameCase(ds[h[k]].entry, e)
  {
    if end == 0 then []
    else if SameCase(ds[end - 1].entry, e) then [end - 1] + CaseHistory(ds, end - 1, e)
    else CaseHistory(ds, end - 1, e)
  }

  /** The decisions visited from index `i` by following `supersedes` until a decision has
      none.  A reference is looked up by its id alone. */
  function IndexOfId(ds: seq<Decision>, id: string): (i: int)
    ensures -1 <= i < |ds|
    ensures i >= 0 ==> ds[i].id == id
    ensures i < 0 ==> forall k :: 0 <= k < |ds| ==> ds[k].id != id
  {
    if ds == [] then -1
    else if ds[|ds| - 1].id == id then |ds| - 1
    else IndexOfId(ds[..|ds| - 1], id)
  }

  function Walk(ds: seq<Decision>, i: nat, steps: nat): seq<nat>
    requires i < |ds|
    decreases steps
  {
    if steps == 0 || ds[i].entry.supersedes.None? then [i]
    else
      var j := IndexOfId(ds, ds[i].entry.supersedes.value.id);
      if j < 0 then [i] else [i] + Walk(ds, j, steps - 1)
  }

  lemma {:induction false} HistorySkips(ds: seq<Decision>, lo: nat, end: nat, e: Entry)
    requires lo <= end <= |ds|
    requires forall k :: lo <= k < end ==> !SameCase(ds[k].entry, e)
    ensures CaseHistory(ds, end, e) == CaseHistory(ds, lo, e)
  {
    if lo >= end {
    } else {
      HistorySkips(ds, lo, end - 1, e);
    }
  }

  lemma {:induction false} HistorySameKey(ds: seq<Decision>, end: nat, e: Entry, f: Entry)
    requires end <= |ds| && e.origin == f.origin
    ensures CaseHistory(ds, end, e) == CaseHistory(ds, end, f)
    ensures LastOfCase(ds, end, e) == LastOfCase(ds, end, f)
  {
    if end == 0 {
    } else {
      HistorySameKey(ds, end - 1, e, f);
    }
  }

  /** Decision `i` names its predecessor in its case, by id and by revision, and names
      nothing when it has no predecessor. */
  predicate NamesPredecessor(ds: seq<Decision>, i: nat)
    requires i < |ds|
  {
    var p := LastOfCase(ds, i, ds[i].entry);
    && (ds[i].entry.supersedes.Some? <==> p >= 0)
    && (p >= 0 ==> && ds[i].entry.supersedes == Some(ds[p].Ref())
                   && IndexOfId(ds, ds[i].entry.supersedes.value.id) == p
                   && ds[i].entry.supersedes.value.revision == p + 1)
  }

  lemma Link(ds: seq<Decision>, i: nat)
    requires Linked(ds) && i < |ds|
    ensures NamesPredecessor(ds, i)
  {
    assert MayFollow(ds[..i], ds[i].entry);
    LastOfCasePrefix(ds, i, i, ds[i].entry);
    var p := LastOfCase(ds, i, ds[i].entry);
    if p >= 0 {
      assert ds[..i][p] == ds[p];
      var q := IndexOfId(ds, ds[p].id);
      assert q >= 0 && ds[q].id == ds[p].id;
    }
  }

  /** The decisions of a case form one chain: from any decision of the case, following
      `supersedes` visits exactly the case's decisions up to it, each once, newest first,
      and stops at the first one. */
  lemma CaseChain(ds: seq<Decision>, i: nat)
    requires Linked(ds) && i < |ds| && ds[i].entry.origin.Some?
    ensures Walk(ds, i, |ds|) == CaseHistory(ds, i + 1, ds[i].entry)
  {
    forall k | 0 <= k < |ds|
      ensures NamesPredecessor(ds, k)
    {
      Link(ds, k);
    }
    WalkIsHistory(ds, i, |ds|);
  }

  lemma {:induction false} WalkIsHistory(ds: seq<Decision>, i: nat, steps: nat)
    requires forall k :: 0 <= k < |ds| ==> NamesPredecessor(ds, k)
    requires i < |ds| && i <= steps && ds[i].entry.origin.Some?
    ensures Walk(ds, i, steps) == CaseHistory(ds, i + 1, ds[i].entry)
    decreases i
  {
    assert NamesPredecessor(ds, i);
    var p := LastOfCase(ds, i, ds[i].entry);
    HistorySkips(ds, if p < 0 then 0 else p + 1, i, ds[i].entry);
    if p < 0 {
    } else {
      WalkIsHistory(ds, p, steps - 1);
      HistorySameKey(ds, p + 1, ds[p].entry, ds[i].entry);
    }
  }

  /** The history lists the decisions of the case strictly downwards and leaves none out. */
  lemma {:induction false} CaseHistoryComplete(ds: seq<Decision>, end: nat, e: Entry)
    requires end <= |ds|
    ensures var h := CaseHistory(ds, end, e);
            && (forall a, b :: 0 <= a < b < |h| ==> h[a] > h[b])
            && (forall k :: 0 <= k < end && SameCase(ds[k].entry, e) ==> k in h)
  {
    if end == 0 {
    } else {
      CaseHistoryComplete(ds, end - 1, e);
    }
  }

  /** Only the first decision of a case supersedes nothing, and a decision outside every
      case never supersedes anything. */
  lemma FirstOfCase(ds: seq<Decision>, i: nat)
    requires Linked(ds) && i < |ds|
    ensures ds[i].entry.supersedes.None? <==> forall k :: 0 <= k < i ==> !SameCase(ds[k].entry, ds[i].entry)
  {
    Link(ds, i);
  }

  // ---------- offers ----------

  /** A decision that reuses an offer takes it from its predecessor in its case. */
  lemma OfferFromPredecessor(ds: seq<Decision>, i: nat, j: nat)
    requires Linked(ds) && i < j < |ds|
    requires ds[i].entry.offerEntryId.Some? && ds[i].entry.offerEntryId == ds[j].entry.offerEntryId
    ensures var p := LastOfCase(ds, j, ds[j].entry);
            p >= 0 && ds[p].entry.offerEntryId == ds[j].entry.offerEntryId
  {
    assert MayFollow(ds[..j], ds[j].entry);
    LastOfCasePrefix(ds, j, j, ds[j].entry);
    assert ds[..j][i].entry.offerEntryId == Some(ds[j].entry.offerEntryId.value);
    assert OfferUsed(ds[..j], ds[j].entry.offerEntryId.value);
  }

  /** An offer is one contiguous segment of one case chain: two decisions that carry it
      are of the same case, and so does every decision of that case between them. */
  lemma {:induction false} OfferLocality(ds: seq<Decision>, i: nat, j: nat)
    requires Linked(ds) && i < j < |ds|
    requires ds[i].entry.offerEntryId.Some? && ds[i].entry.offerEntryId == ds[j].entry.offerEntryId
    ensures SameCase(ds[i].entry, ds[j].entry)
    ensures forall k :: i <= k <= j && SameCase(ds[k].entry, ds[j].entry) ==>
                          ds[k].entry.offerEntryId == ds[j].entry.offerEntryId
    decreases j
  {
    hide Linked, LastOfCase;
    OfferFromPredecessor(ds, i, j);
    var p := LastOfCase(ds, j, ds[j].entry);
    if i < p {
      OfferLocality(ds, i, p);
    } else if p < i {
      OfferLocality(ds, p, i);
    }
  }

  // ---------- extending a log ----------

  /** Appending one decision to a linked log keeps it linked exactly under these conditions. */
  lemma LinkedExtension(ds: seq<Decision>, d: Decision)
    requires Linked(ds)
    ensures Linked(ds + [d]) <==>
              && d.revision == |ds| + 1
              && (forall k :: 0 <= k < |ds| ==> ds[k].id != d.id)
              && MayFollow(ds, d.entry)
  {
    var es := ds + [d];
    assert es[|ds|] == d && es[..|ds|] == ds;
    assert forall i :: 0 <= i < |ds| ==> es[i] == ds[i] && es[..i] == ds[..i];
    if Linked(es) {
      assert MayFollow(es[..|ds|], es[|ds|].entry);
      forall k | 0 <= k < |ds|
        ensures ds[k].id != d.id
      {
        assert es[k].id != es[|ds|].id;
      }
    }
  }
}
