/** Reading and writing the decision log as a JSON document. */
module DecisionCodec {
  import opened Json
  import opened DecisionLog

  /** The field names the store knows; every other name is `Other`. */
  datatype Field =
    | FId | FCriterion | FAuthority | FRationale | FOperator | FRevision
    | FOriginalSource | FOriginalCaseId | FOfferEntryId | FLegacyRow | FSupersedes
    | FSnapshot | FSummary | FDecidedAt | FVersion | FFeature | FRepository | FDecisions
    | FDecision | Other(name: string)

  type Doc = Json<Field>
  type Fields = map<Field, Doc>

  datatype StateRead = ReadValid(state: State) | ReadMalformed | ReadUnsupported

  predicate BoundedStr(v: Doc, maxLength: nat) {
    v.Str? && Bounded(v.s, maxLength)
  }

  predicate WholeFromOne(v: Doc) {
    v.Num? && IsInteger(v.n) && v.n >= 1.0
  }

  // ---------- parsing ----------

  function ParseFeature(v: Doc): Option<Feature> {
    if v.Obj? && v.fields.Keys == {FVersion, FRepository, FFeature}
       && v.fields[FVersion] == Num(1.0)
       && BoundedStr(v.fields[FRepository], MAX_REFERENCE_LENGTH)
       && BoundedStr(v.fields[FFeature], MAX_REFERENCE_LENGTH)
    then Some(Feature(v.fields[FRepository].s, v.fields[FFeature].s))
    else None
  }

  function ParseSource(v: Doc): Option<Source> {
    if v.Obj? && v.fields.Keys == {FId, FSnapshot}
       && BoundedStr(v.fields[FId], MAX_REFERENCE_LENGTH)
       && BoundedStr(v.fields[FSnapshot], MAX_TEXT_LENGTH)
    then Some(Source(v.fields[FId].s, v.fields[FSnapshot].s))
    else None
  }

  function ParseReference(v: Doc): Option<Reference> {
    if v.Obj? && v.fields.Keys == {FId, FRevision}
       && BoundedStr(v.fields[FId], MAX_REFERENCE_LENGTH)
       && WholeFromOne(v.fields[FRevision])
    then Some(Reference(v.fields[FId].s, v.fields[FRevision].n.Floor))
    else None
  }

  function ParseLegacyRow(v: Doc): Option<LegacyRow> {
    if !v.Obj? then None
    else
      var dated := FDecidedAt in v.fields;
      if v.fields.Keys != {FSummary} + (if dated then {FDecidedAt} else {}) then None
      else if !BoundedStr(v.fields[FSummary], MAX_TEXT_LENGTH) then None
      else if dated && !BoundedStr(v.fields[FDecidedAt], MAX_REFERENCE_LENGTH) then None
      else Some(LegacyRow(v.fields[FSummary].s, if dated then Some(v.fields[FDecidedAt].s) else None))
  }

  /** The keys an entry object must have besides its identity keys. */
  predicate EntryKey(o: Fields, key: Field) {
    match key
    case FCriterion => true
    case FAuthority => true
    case FRationale => true
    case FOperator => true
    case FOriginalSource => key in o
    case FOriginalCaseId => FOriginalSource in o
    case FOfferEntryId => key in o
    case FLegacyRow => key in o
    case FSupersedes => key in o
    case _ => false
  }

  predicate HasExactKeys(o: Fields, identity: set<Field>) {
    && identity <= o.Keys
    && FCriterion in o && FAuthority in o && FRationale in o && FOperator in o
    && (FOriginalSource in o ==> FOriginalCaseId in o)
    && forall key :: key in o ==> key in identity || EntryKey(o, key)
  }

  function ParseAuthority(v: Doc): Option<Authority> {
    if v == Str("accept") then Some(Accept)
    else if v == Str("refuse") then Some(Refuse)
    else None
  }

  /** The checks that stored decisions and append inputs have in common. */
  function ParseEntry(o: Fields, identity: set<Field>): Option<Entry> {
    var hasSource := FOriginalSource in o;
    if hasSource != (FOriginalCaseId in o) then None
    else if !HasExactKeys(o, identity) then None
    else
      var authority := ParseAuthority(o[FAuthority]);
      if !BoundedStr(o[FCriterion], MAX_REFERENCE_LENGTH) || authority.None?
         || !BoundedStr(o[FRationale], MAX_TEXT_LENGTH)
         || !BoundedStr(o[FOperator], MAX_REFERENCE_LENGTH)
         || (FOfferEntryId in o && !BoundedStr(o[FOfferEntryId], MAX_REFERENCE_LENGTH))
      then None
      else
        var source := if hasSource then ParseSource(o[FOriginalSource]) else None;
        var legacyRow := if FLegacyRow in o then ParseLegacyRow(o[FLegacyRow]) else None;
        var supersedes := if FSupersedes in o then ParseReference(o[FSupersedes]) else None;
        if (hasSource && (source.None? || !BoundedStr(o[FOriginalCaseId], MAX_REFERENCE_LENGTH)))
           || (FLegacyRow in o && legacyRow.None?)
           || (FOfferEntryId in o && !hasSource)
           || (FSupersedes in o && (supersedes.None? || !hasSource || FOfferEntryId !in o))
        then None
        else Some(Entry(
          o[FCriterion].s, authority.value, o[FRationale].s, o[FOperator].s,
          if source.None? then None else Some(Origin(source.value, o[FOriginalCaseId].s)),
          if FOfferEntryId in o then Some(o[FOfferEntryId].s) else None,
          legacyRow, supersedes))
  }

  function ParseDecision(v: Doc): Option<Decision> {
    if !v.Obj? then None
    else
      var entry := ParseEntry(v.fields, {FId, FRevision});
      if entry.None? then None
      else if !BoundedStr(v.fields[FId], MAX_REFERENCE_LENGTH) || !WholeFromOne(v.fields[FRevision]) then None
      else Some(Decision(v.fields[FId].s, v.fields[FRevision].n.Floor, entry.value))
  }

  function TrimEntry(e: Entry): Entry {
    e.(criterion := Trim(e.criterion),
       rationale := Trim(e.rationale),
       operator := Trim(e.operator),
       origin := if e.origin.Some? then Some(e.origin.value.(caseId := Trim(e.origin.value.caseId))) else None,
       offerEntryId := if e.offerEntryId.Some? then Some(Trim(e.offerEntryId.value)) else None)
  }

  function ParseInput(v: Doc): Option<Entry> {
    if !v.Obj? then None
    else
      var entry := ParseEntry(v.fields, {});
      if entry.None? then None else Some(TrimEntry(entry.value))
  }

  function ParseState(v: Doc): StateRead {
    if !v.Obj? then ReadMalformed
    else if FVersion !in v.fields || v.fields[FVersion] != Num(2.0) then ReadUnsupported
    else if v.fields.Keys != {FVersion, FFeature, FDecisions} then ReadMalformed
    else if !v.fields[FDecisions].Arr? || |v.fields[FDecisions].items| > MAX_DECISIONS then ReadMalformed
    else
      var feature := ParseFeature(v.fields[FFeature]);
      var decisions := ParseList(ParseDecision, v.fields[FDecisions].items);
      if feature.None? || decisions.None? then ReadMalformed
      else if !Linked(decisions.value) then ReadMalformed
      else ReadValid(State(feature.value, decisions.value))
  }

  // ---------- the retired version-one document ----------

  predicate NonBlankStr(o: Fields, key: Field) {
    key in o && o[key].Str? && !Blank(o[key].s)
  }

  predicate IsOverScopeDecision(v: Doc) {
    && v.Obj?
    && NonBlankStr(v.fields, FCriterion)
    && NonBlankStr(v.fields, FSummary)
    && FDecision in v.fields && ParseAuthority(v.fields[FDecision]).Some?
    && NonBlankStr(v.fields, FRationale)
    && NonBlankStr(v.fields, FOperator)
    && NonBlankStr(v.fields, FDecidedAt)
  }

  predicate IsVersionOne(v: Doc) {
    v.Obj? && FVersion in v.fields && v.fields[FVersion] == Num(1.0)
  }

  /** The version-one documents that migration accepts. */
  predicate IsLegacyDocument(v: Doc) {
    && IsVersionOne(v)
    && v.fields.Keys == {FVersion, FDecisions}
    && v.fields[FDecisions].Arr?
    && forall i :: 0 <= i < |v.fields[FDecisions].items| ==> IsOverScopeDecision(v.fields[FDecisions].items[i])
  }

  // ---------- writing ----------

  function OptionalField(key: Field, v: Option<Doc>): Fields {
    if v.Some? then map[key := v.value] else map[]
  }

  function PrintAuthority(a: Authority): Doc {
    Str(if a == Accept then "accept" else "refuse")
  }

  function PrintSource(s: Source): Doc {
    Obj(map[FId := Str(s.id), FSnapshot := Str(s.snapshot)])
  }

  function PrintReference(r: Reference): Doc {
    Obj(map[FId := Str(r.id), FRevision := Num(r.revision as real)])
  }

  function PrintLegacyRow(r: LegacyRow): Doc {
    Obj(map[FSummary := Str(r.summary)]
        + OptionalField(FDecidedAt, if r.decidedAt.Some? then Some(Str(r.decidedAt.value)) else None))
  }

  /** The value an entry's object has under a key, if it has the key. */
  function EntryField(e: Entry, key: Field): Option<Doc> {
    match key
    case FCriterion => Some(Str(e.criterion))
    case FAuthority => Some(PrintAuthority(e.authority))
    case FRationale => Some(Str(e.rationale))
    case FOperator => Some(Str(e.operator))
    case FOriginalSource => if e.origin.Some? then Some(PrintSource(e.origin.value.source)) else None
    case FOriginalCaseId => if e.origin.Some? then Some(Str(e.origin.value.caseId)) else None
    case FOfferEntryId => if e.offerEntryId.Some? then Some(Str(e.offerEntryId.value)) else None
    case FLegacyRow => if e.legacyRow.Some? then Some(PrintLegacyRow(e.legacyRow.value)) else None
    case FSupersedes => if e.supersedes.Some? then Some(PrintReference(e.supersedes.value)) else None
    case _ => None
  }

  const ENTRY_KEYS: set<Field> :=
    {FCriterion, FAuthority, FRationale, FOperator, FOriginalSource, FOriginalCaseId, FOfferEntryId, FLegacyRow, FSupersedes}

  function PrintEntry(e: Entry): Fields {
    map key | key in ENTRY_KEYS && EntryField(e, key).Some? :: EntryField(e, key).value
  }

  function Identity(d: Decision): (o: Fields)
    ensures o.Keys == {FId, FRevision}
  {
    map[FId := Str(d.id), FRevision := Num(d.revision as real)]
  }

  function PrintDecision(d: Decision): Doc {
    Obj(PrintEntry(d.entry) + Identity(d))
  }

  function PrintFeature(f: Feature): Doc {
    Obj(map[FVersion := Num(1.0), FRepository := Str(f.repository), FFeature := Str(f.feature)])
  }

  function PrintState(s: State): Doc {
    Obj(map[FVersion := Num(2.0), FFeature := PrintFeature(s.feature), FDecisions := Arr(PrintList(PrintDecision, s.decisions))])
  }

  // ---------- reading and writing are inverse ----------
  //
  // Each lemma says that parsing yields a value exactly when the document is that value's
  // printed form and the value is well formed.

  lemma LegacyRowCodec(v: Doc, r: LegacyRow)
    ensures ParseLegacyRow(v) == Some(r) <==>
              && v == PrintLegacyRow(r)
              && BoundedText(r.summary) && (r.decidedAt.Some? ==> BoundedReference(r.decidedAt.value))
  {
    var o := PrintLegacyRow(r).fields;
    assert o.Keys == {FSummary} + (if r.decidedAt.Some? then {FDecidedAt} else {});
    if ParseLegacyRow(v) == Some(r) {
      assert v.fields == o;
    }
  }

  lemma SourceCodec(v: Doc, s: Source)
    ensures ParseSource(v) == Some(s) <==>
              v == PrintSource(s) && BoundedReference(s.id) && BoundedText(s.snapshot)
  {
    var o := PrintSource(s).fields;
    assert o.Keys == {FId, FSnapshot};
    if ParseSource(v) == Some(s) {
      assert v.fields == o;
    }
  }

  lemma ReferenceCodec(v: Doc, r: Reference)
    ensures ParseReference(v) == Some(r) <==>
              v == PrintReference(r) && BoundedReference(r.id) && r.revision >= 1
  {
    var o := PrintReference(r).fields;
    assert o.Keys == {FId, FRevision};
    if ParseReference(v) == Some(r) {
      assert v.fields == o;
    }
  }

  lemma FeatureCodec(v: Doc, f: Feature)
    ensures ParseFeature(v) == Some(f) <==> v == PrintFeature(f) && WellFormedFeature(f)
  {
    var o := PrintFeature(f).fields;
    assert o.Keys == {FVersion, FRepository, FFeature};
    if ParseFeature(v) == Some(f) {
      assert v.fields == o;
    }
  }

  lemma AuthorityCodec(v: Doc, a: Authority)
    ensures ParseAuthority(v) == Some(a) <==> v == PrintAuthority(a)
  {
    assert "accept"[0] != "refuse"[0];
  }

  predicate HasField(o: Fields, key: Field, v: Option<Doc>) {
    if v.Some? then key in o && o[key] == v.value else key !in o
  }

  /** `o` holds exactly the printed fields of `e` besides the keys in `identity`. */
  ghost predicate Represents(o: Fields, e: Entry, identity: set<Field>) {
    && identity <= o.Keys
    && forall key :: key !in identity ==> HasField(o, key, EntryField(e, key))
  }

  lemma PrintRepresents(o: Fields, e: Entry, extra: Fields)
    requires extra.Keys <= {FId, FRevision}
    ensures o == PrintEntry(e) + extra <==>
              Represents(o, e, extra.Keys) && forall k :: k in extra ==> k in o && o[k] == extra[k]
  {
    var p := PrintEntry(e) + extra;
    if Represents(o, e, extra.Keys) && forall k :: k in extra ==> k in o && o[k] == extra[k] {
      assert forall k :: k in o <==> k in p;
    }
  }

  lemma ParseRepresented(o: Fields, e: Entry, identity: set<Field>)
    requires identity <= {FId, FRevision} && Represents(o, e, identity) && WellFormedEntry(e)
    ensures ParseEntry(o, identity) == Some(e)
  {
    hide ParseSource, ParseLegacyRow, ParseReference, ParseAuthority, PrintSource, PrintLegacyRow, PrintReference, PrintAuthority;
    assert forall key :: key in ENTRY_KEYS ==> HasField(o, key, EntryField(e, key));
    assert HasExactKeys(o, identity);
    AuthorityCodec(o[FAuthority], e.authority);
    if e.origin.Some? {
      SourceCodec(o[FOriginalSource], e.origin.value.source);
    }
    if e.legacyRow.Some? {
      LegacyRowCodec(o[FLegacyRow], e.legacyRow.value);
    }
    if e.supersedes.Some? {
      ReferenceCodec(o[FSupersedes], e.supersedes.value);
    }
  }

  lemma ParsedRepresents(o: Fields, e: Entry, identity: set<Field>)
    requires identity <= {FId, FRevision} && ParseEntry(o, identity) == Some(e)
    ensures Represents(o, e, identity) && WellFormedEntry(e)
  {
    AuthorityCodec(o[FAuthority], e.authority);
    if e.origin.Some? {
      SourceCodec(o[FOriginalSource], e.origin.value.source);
    }
    if e.legacyRow.Some? {
      LegacyRowCodec(o[FLegacyRow], e.legacyRow.value);
    }
    if e.supersedes.Some? {
      ReferenceCodec(o[FSupersedes], e.supersedes.value);
    }
    forall key | key !in identity
      ensures HasField(o, key, EntryField(e, key))
    {
      assert key in o ==> EntryKey(o, key);
    }
  }

  lemma DecisionCodec(v: Doc, d: Decision)
    ensures ParseDecision(v) == Some(d) <==> v == PrintDecision(d) && WellFormedDecision(d)
  {
    if ParseDecision(v) == Some(d) {
      ParsedRepresents(v.fields, d.entry, {FId, FRevision});
      PrintRepresents(v.fields, d.entry, Identity(d));
    }
    if v == PrintDecision(d) && WellFormedDecision(d) {
      PrintRepresents(v.fields, d.entry, Identity(d));
      ParseRepresented(v.fields, d.entry, {FId, FRevision});
    }
  }

  lemma DecisionsCodec(vs: seq<Doc>, ds: seq<Decision>)
    ensures ParseList(ParseDecision, vs) == Some(ds) <==> vs == PrintList(PrintDecision, ds) && AllWellFormed(ds)
  {
    hide ParseDecision, PrintDecision, WellFormedDecision;
    forall v, d
      ensures ParseDecision(v) == Some(d) <==> v == PrintDecision(d) && WellFormedDecision(d)
    {
      DecisionCodec(v, d);
    }
    ListCodec(ParseDecision, PrintDecision, WellFormedDecision, vs, ds);
  }

  /** The shape of a version-two document, its two parts still unparsed. */
  predicate HasStateShape(v: Doc) {
    && v.Obj?
    && v.fields.Keys == {FVersion, FFeature, FDecisions}
    && v.fields[FVersion] == Num(2.0)
    && v.fields[FDecisions].Arr?
  }

  lemma StateShape(v: Doc, s: State)
    ensures v == PrintState(s) <==>
              && HasStateShape(v)
              && v.fields[FFeature] == PrintFeature(s.feature)
              && v.fields[FDecisions].items == PrintList(PrintDecision, s.decisions)
  {
    var o := PrintState(s).fields;
    assert o.Keys == {FVersion, FFeature, FDecisions};
    if HasStateShape(v) && v.fields[FFeature] == PrintFeature(s.feature)
       && v.fields[FDecisions].items == PrintList(PrintDecision, s.decisions) {
      assert v.fields == o;
    }
  }

  /** A document is accepted as the log `s` exactly when it is the printed form of `s` and
      `s` is valid: reading inverts writing, and no other document reads as `s`. */
  lemma StateCodec(v: Doc, s: State)
    ensures ParseState(v) == ReadValid(s) <==> v == PrintState(s) && ValidState(s)
  {
    StateShape(v, s);
    if HasStateShape(v) {
      FeatureCodec(v.fields[FFeature], s.feature);
      DecisionsCodec(v.fields[FDecisions].items, s.decisions);
      ParseStateParts(v, s);
    }
  }

  lemma ParseStateParts(v: Doc, s: State)
    requires HasStateShape(v)
    ensures ParseState(v) == ReadValid(s) <==>
              && |v.fields[FDecisions].items| <= MAX_DECISIONS
              && ParseFeature(v.fields[FFeature]) == Some(s.feature)
              && ParseList(ParseDecision, v.fields[FDecisions].items) == Some(s.decisions)
              && Linked(s.decisions)
  {
  }

  lemma TrimBounded(s: string, maxLength: nat)
    requires Bounded(s, maxLength)
    ensures Bounded(Trim(s), maxLength)
  {
    TrimKeepsText(s);
  }

  /** Trimming an accepted append input never makes it unacceptable. */
  lemma TrimmedInputWellFormed(v: Doc, e: Entry)
    requires ParseInput(v) == Some(e)
    ensures WellFormedEntry(e)
  {
    var raw := ParseEntry(v.fields, {}).value;
    ParsedRepresents(v.fields, raw, {});
    TrimmedEntryWellFormed(raw);
  }

  lemma TrimmedEntryWellFormed(e: Entry)
    requires WellFormedEntry(e)
    ensures WellFormedEntry(TrimEntry(e))
  {
    TrimBounded(e.criterion, MAX_REFERENCE_LENGTH);
    TrimBounded(e.rationale, MAX_TEXT_LENGTH);
    TrimBounded(e.operator, MAX_REFERENCE_LENGTH);
    if e.origin.Some? {
      TrimBounded(e.origin.value.caseId, MAX_REFERENCE_LENGTH);
    }
    if e.offerEntryId.Some? {
      TrimBounded(e.offerEntryId.value, MAX_REFERENCE_LENGTH);
    }
  }
}
