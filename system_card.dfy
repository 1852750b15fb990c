/** The system card and the mapping from one register record to one card
    (`impl From<&AlgoritmeregisterRecord> for SystemCard` and the `From` impls for its
    collections). Each collection is specified by a function (`OwnersOf`, `LabelsOf`,
    `LegalBasesOf`, `ReferencesOf`, `ExternalProvidersOf`, and `CardOf` for the whole card) and
    built by a method that pushes onto a list the way `SystemCard::from` does. */
module SystemCards {
  import opened Options
  import opened Register
  import opened Compaction
  import opened Dates
  import P = LegalBasisPattern

  /** The schema version stamped on every card. */
  const CardVersion: string := "0.1a3"

  datatype Label = Label(name: Option<string>, value: Option<string>)

  datatype LegalBase = LegalBase(name: Option<string>, link: Option<string>)

  datatype Owner = Owner(
    oin: Option<string>,
    organization: Option<string>,
    name: Option<string>,
    email: Option<string>,
    role: Option<string>
  )

  /** Placeholders of schemas that do not exist yet; a card never holds any. */
  datatype ModelCard = ModelCard
  datatype AssessmentCard = AssessmentCard

  datatype SystemCard = SystemCard(
    version: string,
    name: Text,
    upl: Text,
    owners: seq<Owner>,
    description: Text,
    labels: seq<Label>,
    status: Text,
    publication_category: Text,
    begin_date: Option<Date>,
    end_date: Option<Date>,
    goal_and_impact: Text,
    considerations: Text,
    risk_management: Text,
    human_intervention: Text,
    legal_base: seq<LegalBase>,
    used_data: Text,
    technical_design: Text,
    external_providers: seq<string>,
    references: seq<string>,
    models: Option<seq<ModelCard>>,
    assessments: Option<seq<AssessmentCard>>
  )

  // ---------------------------------------------------------------------------------------
  // Specification of each part of the card.

  /** The single owner: the record's organisation and contact address. */
  function OwnersOf(r: Record): seq<Owner>
  {
    [Owner(None, r.organization, None, r.contact_email, None)]
  }

  /** The record columns that become labels, in label order, and the label name of each. */
  const LabelNames: seq<string> :=
    ["category", "tags", "lawful_basis", "impacttoetsen", "impacttoetsen_grouping"]

  function LabelSources(r: Record): (fields: seq<Text>)
    ensures |fields| == |LabelNames|
  {
    [r.category, r.tags, r.lawful_basis, r.impacttoetsen, r.impacttoetsen_grouping]
  }

  /** The label a column contributes: its name and its value, if the column is present. */
  function LabelSlot(name: string, field: Text): Option<Label>
  {
    match field
    case None => None
    case Some(v) => Some(Label(Some(name), Some(v)))
  }

  function LabelSlots(r: Record): (slots: seq<Option<Label>>)
    ensures |slots| == |LabelNames|
    ensures forall j :: 0 <= j < |slots| ==> slots[j] == LabelSlot(LabelNames[j], LabelSources(r)[j])
  {
    seq(|LabelNames|, j requires 0 <= j < |LabelNames| => LabelSlot(LabelNames[j], LabelSources(r)[j]))
  }

  function LabelsOf(r: Record): seq<Label>
  {
    Compact(LabelSlots(r))
  }

  /** The record columns that become references, in reference order. */
  function ReferenceSources(r: Record): (fields: seq<Text>)
    ensures |fields| == 5
  {
    [r.publiccode, r.website, r.url, r.source_data_link, r.process_index_url]
  }

  function ReferencesOf(r: Record): seq<string>
  {
    Compact(ReferenceSources(r))
  }

  function ExternalProvidersOf(r: Record): seq<string>
  {
    Compact([r.provider])
  }

  /** The legal basis one match contributes: its name group and its link group. */
  function LegalBaseOf(s: string, cap: P.Capture): LegalBase
    requires P.Fits(s, cap)
  {
    LegalBase(Some(P.Name(s, cap)), Some(P.Link(s, cap)))
  }

  /** The legal bases of the matches found from `pos` on. */
  function LegalBasesFrom(s: string, pos: nat): (bases: seq<LegalBase>)
    requires pos <= |s|
    ensures |bases| == |P.Captures(s, pos)|
  {
    var caps := P.Captures(s, pos);
    seq(|caps|, k requires 0 <= k < |caps| => LegalBaseOf(s, caps[k]))
  }

  function LegalBasesOf(r: Record): seq<LegalBase>
  {
    match r.lawful_basis_grouping
    case None => []
    case Some(s) => LegalBasesFrom(s, 0)
  }

  /** `begin_date` and `end_date`: absent stays absent, a present value is normalised. */
  function DateOf(field: Text): Option<Date>
  {
    match field
    case None => None
    case Some(v) => ParseDate(v)
  }

  /** The card of a record, field by field as `SystemCard::from` builds it. */
  function CardOf(r: Record): SystemCard
  {
    SystemCard(
      version := CardVersion,
      name := r.name,
      upl := None,
      owners := OwnersOf(r),
      description := r.description_short,
      labels := LabelsOf(r),
      status := r.status,
      publication_category := r.publication_category,
      begin_date := DateOf(r.begin_date),
      end_date := DateOf(r.end_date),
      goal_and_impact := r.goal,
      considerations := r.proportionality,
      risk_management := r.risks,
      human_intervention := r.human_intervention,
      legal_base := LegalBasesOf(r),
      used_data := r.source_data,
      technical_design := r.methods_and_models,
      external_providers := ExternalProvidersOf(r),
      references := ReferencesOf(r),
      models := None,
      assessments := None
    )
  }

  // ---------------------------------------------------------------------------------------
  // The mapping as `SystemCard::from` builds it.

  method BuildOwners(r: Record) returns (owners: seq<Owner>)
    ensures owners == OwnersOf(r)
  {
    owners := [];
    owners := owners + [Owner(None, r.organization, None, r.contact_email, None)];
  }

  method BuildLabels(r: Record) returns (labels: seq<Label>)
    ensures labels == LabelsOf(r)
  {
    ghost var slots := LabelSlots(r);
    labels := [];
    assert slots[..0] == [];
    labels := PushPresent(labels, LabelSlot("category", r.category));
    CompactPrefixPush(slots, 0);
    labels := PushPresent(labels, LabelSlot("tags", r.tags));
    CompactPrefixPush(slots, 1);
    labels := PushPresent(labels, LabelSlot("lawful_basis", r.lawful_basis));
    CompactPrefixPush(slots, 2);
    labels := PushPresent(labels, LabelSlot("impacttoetsen", r.impacttoetsen));
    CompactPrefixPush(slots, 3);
    labels := PushPresent(labels, LabelSlot("impacttoetsen_grouping", r.impacttoetsen_grouping));
    CompactPrefixPush(slots, 4);
    assert slots[..5] == slots;
  }

  method BuildReferences(r: Record) returns (references: seq<string>)
    ensures references == ReferencesOf(r)
  {
    ghost var fields := ReferenceSources(r);
    references := [];
    assert fields[..0] == [];
    references := PushPresent(references, r.publiccode);
    CompactPrefixPush(fields, 0);
    references := PushPresent(references, r.website);
    CompactPrefixPush(fields, 1);
    references := PushPresent(references, r.url);
    CompactPrefixPush(fields, 2);
    references := PushPresent(references, r.source_data_link);
    CompactPrefixPush(fields, 3);
    references := PushPresent(references, r.process_index_url);
    CompactPrefixPush(fields, 4);
    assert fields[..5] == fields;
  }

  /** One iteration of `captures_iter` adds the legal basis of the match found and moves the
      search past it. */
  lemma LegalBasesStep(s: string, pos: nat)
    requires pos <= |s| && P.Find(s, pos).Some?
    ensures var cap := P.Find(s, pos).value;
      LegalBasesFrom(s, pos) == [LegalBaseOf(s, cap)] + LegalBasesFrom(s, P.MatchEnd(s, cap))
  {
    var cap := P.Find(s, pos).value;
    assert P.Captures(s, pos) == [cap] + P.Captures(s, P.MatchEnd(s, cap));
  }

  method BuildLegalBases(r: Record) returns (legal_base: seq<LegalBase>)
    ensures legal_base == LegalBasesOf(r)
  {
    legal_base := [];
    if r.lawful_basis_grouping.Some? {
      var input := r.lawful_basis_grouping.value;
      var pos := 0;
      var next := P.Find(input, pos);
      while next.Some?
        invariant pos <= |input| && next == P.Find(input, pos)
        invariant legal_base + LegalBasesFrom(input, pos) == LegalBasesFrom(input, 0)
        decreases |input| - pos
      {
        var cap := next.value;
        LegalBasesStep(input, pos);
        legal_base := legal_base + [LegalBaseOf(input, cap)];
        pos := P.MatchEnd(input, cap);
        next := P.Find(input, pos);
      }
      assert P.Captures(input, pos) == [];
    }
  }

  /** `SystemCard::from`. */
  method MapRecord(r: Record) returns (card: SystemCard)
    ensures card == CardOf(r)
  {
    var begin_date := if r.begin_date.Some? then ParseDate(r.begin_date.value) else None;
    var end_date := if r.end_date.Some? then ParseDate(r.end_date.value) else None;

    var external_providers := PushPresent([], r.provider);

    var owners := BuildOwners(r);
    var labels := BuildLabels(r);
    var legal_base := BuildLegalBases(r);
    var references := BuildReferences(r);
    card := SystemCard(
      version := CardVersion,
      name := r.name,
      upl := None,
      owners := owners,
      description := r.description_short,
      labels := labels,
      status := r.status,
      publication_category := r.publication_category,
      begin_date := begin_date,
      end_date := end_date,
      goal_and_impact := r.goal,
      considerations := r.proportionality,
      risk_management := r.risks,
      human_intervention := r.human_intervention,
      legal_base := legal_base,
      used_data := r.source_data,
      technical_design := r.methods_and_models,
      external_providers := external_providers,
      references := references,
      models := None,
      assessments := None
    );
  }

  // ---------------------------------------------------------------------------------------
  // Properties of the mapping.

  /** One label per present label column, so never more than five. */
  lemma LabelsCount(r: Record)
    ensures |LabelsOf(r)| == CountPresent(LabelSources(r)) <= |LabelNames|
  {
    var slots := LabelSlots(r);
    CompactLength(slots);
    SamePresence(slots, LabelSources(r));
  }

  /** The label of a present column sits at the number of present columns before it: labels
      keep the column order (category, tags, lawful_basis, impacttoetsen,
      impacttoetsen_grouping). */
  lemma LabelsInColumnOrder(r: Record, j: nat)
    requires j < |LabelNames| && LabelSources(r)[j].Some?
    ensures CountPresent(LabelSources(r)[..j]) < |LabelsOf(r)|
    ensures LabelsOf(r)[CountPresent(LabelSources(r)[..j])] == Label(Some(LabelNames[j]), LabelSources(r)[j])
  {
    var slots := LabelSlots(r);
    CompactRank(slots, j);
    SamePresence(slots[..j], LabelSources(r)[..j]);
  }

  /** A label with a column's name and a value is on the card exactly when that column holds
      that value. */
  lemma LabelMember(r: Record, j: nat, v: string)
    requires j < |LabelNames|
    ensures Label(Some(LabelNames[j]), Some(v)) in LabelsOf(r) <==> LabelSources(r)[j] == Some(v)
  {
    var slots := LabelSlots(r);
    var l := Label(Some(LabelNames[j]), Some(v));
    CompactMember(slots, l);
    assert forall i :: 0 <= i < |slots| && slots[i] == Some(l) ==> i == j by {
      forall i | 0 <= i < |slots| && slots[i] == Some(l)
        ensures i == j
      {
        assert |LabelNames[i]| == |LabelNames[j]|;
      }
    }
    assert LabelSources(r)[j] == Some(v) ==> slots[j] == Some(l);
  }

  /** Every label has a name and a value, and the name is one of the label columns. */
  lemma LabelsPopulated(r: Record)
    ensures forall l :: l in LabelsOf(r) ==> l.name.Some? && l.value.Some? && l.name.value in LabelNames
  {
    forall l | l in LabelsOf(r)
      ensures l.name.Some? && l.value.Some? && l.name.value in LabelNames
    {
      CompactMember(LabelSlots(r), l);
    }
  }

  /** One reference per present reference column, so never more than five. */
  lemma ReferencesCount(r: Record)
    ensures |ReferencesOf(r)| == CountPresent(ReferenceSources(r)) <= 5
  {
    CompactLength(ReferenceSources(r));
  }

  /** A present reference column's value sits at the number of present columns before it:
      references keep the order publiccode, website, url, source_data_link,
      process_index_url. */
  lemma ReferencesInColumnOrder(r: Record, j: nat)
    requires j < 5 && ReferenceSources(r)[j].Some?
    ensures CountPresent(ReferenceSources(r)[..j]) < |ReferencesOf(r)|
    ensures ReferencesOf(r)[CountPresent(ReferenceSources(r)[..j])] == ReferenceSources(r)[j].value
  {
    CompactRank(ReferenceSources(r), j);
  }

  /** A string is a reference exactly when one of the reference columns holds it. */
  lemma ReferenceMember(r: Record, v: string)
    ensures v in ReferencesOf(r) <==>
      (r.publiccode == Some(v) || r.website == Some(v) || r.url == Some(v)
       || r.source_data_link == Some(v) || r.process_index_url == Some(v))
  {
    CompactMember(ReferenceSources(r), v);
  }

  /** At most one external provider: the provider column, when present. */
  lemma ExternalProvidersOfProvider(r: Record)
    ensures ExternalProvidersOf(r) == if r.provider.Some? then [r.provider.value] else []
  {
    CompactPrefixStep([r.provider], 0);
    assert [r.provider][..1] == [r.provider] && [r.provider][..0] == [];
  }

  /** A legal basis as the card reports it: a non-empty name and an `https://` link without
      white space. */
  predicate LegalBaseWellFormed(lb: LegalBase)
  {
    && lb.name.Some? && |lb.name.value| > 0
    && lb.link.Some? && |lb.link.value| > 8 && lb.link.value[..8] == "https://"
    && forall k :: 0 <= k < |lb.link.value| ==> !P.IsSpace(lb.link.value[k])
  }

  /** The legal bases of a text are those of its successive leftmost-first matches, in text
      order, and no match is left after the last one. */
  lemma LegalBasesAreSuccessiveMatches(s: string, k: nat)
    requires k < |LegalBasesFrom(s, 0)|
    ensures var caps := P.Captures(s, 0);
      && LegalBasesFrom(s, 0)[k] == LegalBaseOf(s, caps[k])
      && P.LeftmostFirst(s, P.ResumeAt(s, 0, caps, k), caps[k])
      && (k + 1 < |caps| ==> caps[k].linkEnd < caps[k + 1].start)
  {
    var caps := P.Captures(s, 0);
    P.CapturesAreLeftmostFirst(s, 0);
    if k + 1 < |caps| {
      P.CapturesInOrder(s, 0, k);
    }
  }

  /** Every legal basis on a card is well formed. */
  lemma LegalBasesWellFormed(r: Record)
    ensures forall lb :: lb in LegalBasesOf(r) ==> LegalBaseWellFormed(lb)
  {
    if r.lawful_basis_grouping.Some? {
      var s := r.lawful_basis_grouping.value;
      var caps := P.Captures(s, 0);
      P.CapturesAreLeftmostFirst(s, 0);
      forall k | 0 <= k < |caps|
        ensures LegalBaseWellFormed(LegalBasesFrom(s, 0)[k])
      {
        P.GroupsWellFormed(s, caps[k]);
      }
    }
  }

  /** The card has no legal basis exactly when the grouping column is absent or holds no match
      of the pattern anywhere. */
  lemma LegalBasesEmptyIff(r: Record)
    ensures LegalBasesOf(r) == [] <==>
      (r.lawful_basis_grouping.None?
       || P.NoMatchBetween(r.lawful_basis_grouping.value, 0, |r.lawful_basis_grouping.value| + 1))
  {
    if r.lawful_basis_grouping.Some? {
      P.NoCapturesIffNoMatch(r.lawful_basis_grouping.value, 0);
    }
  }

  /** A grouping text with two entries, `1: A, https://x.y. 2: B, https://z.`, gives two
      legal bases; the second link keeps the period that ends the text. */
  lemma TwoEntryLegalBases(r: Record)
    requires r.lawful_basis_grouping == Some(P.TwoEntries)
    ensures LegalBasesOf(r) ==
      [LegalBase(Some("A"), Some("https://x.y")), LegalBase(Some("B"), Some("https://z."))]
  {
    var s := P.TwoEntries;
    P.TwoEntryCaptures(s);
    var caps := P.Captures(s, 0);
    var bases := LegalBasesFrom(s, 0);
    assert |bases| == 2;
    assert bases[0] == LegalBaseOf(s, caps[0]) && bases[1] == LegalBaseOf(s, caps[1]);
  }

  /** What every card made from a record satisfies. */
  predicate WellFormedCard(card: SystemCard)
  {
    && card.version == CardVersion
    && card.upl.None? && card.models.None? && card.assessments.None?
    && |card.owners| == 1
    && card.owners[0].oin.None? && card.owners[0].name.None? && card.owners[0].role.None?
    && |card.labels| <= |LabelNames|
    && (forall l :: l in card.labels ==> l.name.Some? && l.value.Some? && l.name.value in LabelNames)
    && (forall lb :: lb in card.legal_base ==> LegalBaseWellFormed(lb))
    && |card.external_providers| <= 1
    && |card.references| <= 5
    && (card.begin_date.Some? ==> card.begin_date.value.day == 1 && 1 <= card.begin_date.value.month <= 12)
    && (card.end_date.Some? ==> card.end_date.value.day == 1 && 1 <= card.end_date.value.month <= 12)
  }

  lemma CardOfWellFormed(r: Record)
    ensures WellFormedCard(CardOf(r))
  {
    LabelsCount(r);
    LabelsPopulated(r);
    LegalBasesWellFormed(r);
    ExternalProvidersOfProvider(r);
    ReferencesCount(r);
  }

  /** The fields a card copies from its record are recoverable from the card: two records
      with the same card agree on them. */
  lemma CardKeepsCopiedFields(r1: Record, r2: Record)
    requires CardOf(r1) == CardOf(r2)
    ensures r1.name == r2.name && r1.organization == r2.organization
    ensures r1.contact_email == r2.contact_email && r1.description_short == r2.description_short
    ensures r1.status == r2.status && r1.publication_category == r2.publication_category
    ensures r1.goal == r2.goal && r1.proportionality == r2.proportionality
    ensures r1.risks == r2.risks && r1.human_intervention == r2.human_intervention
    ensures r1.source_data == r2.source_data && r1.methods_and_models == r2.methods_and_models
    ensures r1.provider == r2.provider
    ensures forall j :: 0 <= j < |LabelNames| ==> LabelSources(r1)[j] == LabelSources(r2)[j]
  {
    ExternalProvidersOfProvider(r1);
    ExternalProvidersOfProvider(r2);
    forall j | 0 <= j < |LabelNames|
      ensures LabelSources(r1)[j] == LabelSources(r2)[j]
    {
      if LabelSources(r1)[j].Some? {
        LabelMember(r1, j, LabelSources(r1)[j].value);
        LabelMember(r2, j, LabelSources(r1)[j].value);
      } else if LabelSources(r2)[j].Some? {
        LabelMember(r1, j, LabelSources(r2)[j].value);
        LabelMember(r2, j, LabelSources(r2)[j].value);
      }
    }
  }

  // ---------------------------------------------------------------------------------------
  // Serialisation: which keys `serde` writes (`skip_serializing_if`).

  /** The card's keys in field order. */
  const FieldNames: seq<string> := [
    "version", "name", "upl", "owners", "description", "labels", "status",
    "publication_category", "begin_date", "end_date", "goal_and_impact", "considerations",
    "risk_management", "human_intervention", "legal_base", "used_data", "technical_design",
    "external_providers", "references", "models", "assessments"]

  lemma FieldNamesDistinct()
    ensures forall i, j :: 0 <= i < j < |FieldNames| ==> FieldNames[i] != FieldNames[j]
  {
    forall i, j | 0 <= i < j < |FieldNames|
      ensures FieldNames[i] != FieldNames[j]
    {
      assert |FieldNames[i]| != |FieldNames[j]| || FieldNames[i][0] != FieldNames[j][0];
    }
  }

  /** For each field, whether it is serialised: `version` always, an `Option` field when it is
      not `None`, a list field when it is not empty. */
  function FieldsSet(card: SystemCard): (flags: seq<bool>)
    ensures |flags| == |FieldNames|
  {
    [true, card.name.Some?, card.upl.Some?, card.owners != [], card.description.Some?,
     card.labels != [], card.status.Some?, card.publication_category.Some?,
     card.begin_date.Some?, card.end_date.Some?, card.goal_and_impact.Some?,
     card.considerations.Some?, card.risk_management.Some?, card.human_intervention.Some?,
     card.legal_base != [], card.used_data.Some?, card.technical_design.Some?,
     card.external_providers != [], card.references != [], card.models.Some?,
     card.assessments.Some?]
  }

  function KeySlots(card: SystemCard): (slots: seq<Option<string>>)
    ensures |slots| == |FieldNames|
    ensures forall k :: 0 <= k < |slots| ==>
      slots[k] == if FieldsSet(card)[k] then Some(FieldNames[k]) else None
  {
    seq(|FieldNames|, k requires 0 <= k < |FieldNames| =>
      if FieldsSet(card)[k] then Some(FieldNames[k]) else None)
  }

  /** The keys of the card's serialised form, in field order: at most one per field, and
      always `version` first. */
  function EmittedKeys(card: SystemCard): (keys: seq<string>)
    ensures 1 <= |keys| <= |FieldNames| && keys[0] == "version"
  {
    var slots := KeySlots(card);
    CompactLength(slots);
    assert slots[..0] == [];
    CompactRank(slots, 0);
    Compact(slots)
  }

  /** Only field names are serialised as keys. */
  lemma EmittedKeysAreFieldNames(card: SystemCard)
    ensures forall k :: 0 <= k < |EmittedKeys(card)| ==> EmittedKeys(card)[k] in FieldNames
  {
    var slots := KeySlots(card);
    forall k | 0 <= k < |EmittedKeys(card)|
      ensures EmittedKeys(card)[k] in FieldNames
    {
      var key := EmittedKeys(card)[k];
      CompactMember(slots, key);
      var i :| 0 <= i < |slots| && slots[i] == Some(key);
      assert FieldNames[i] == key;
    }
  }

  /** A key is serialised exactly when its field is set. */
  lemma KeyEmittedIff(card: SystemCard, k: nat)
    requires k < |FieldNames|
    ensures FieldNames[k] in EmittedKeys(card) <==> FieldsSet(card)[k]
  {
    var slots := KeySlots(card);
    CompactMember(slots, FieldNames[k]);
    FieldNamesDistinct();
    assert forall i :: 0 <= i < |slots| && slots[i] == Some(FieldNames[k]) ==> i == k;
  }

  /** A card with every optional field absent and every list empty serialises `version` and
      nothing else. */
  lemma BareCardKeys(card: SystemCard)
    requires card.name.None? && card.upl.None? && card.description.None? && card.status.None?
    requires card.publication_category.None? && card.begin_date.None? && card.end_date.None?
    requires card.goal_and_impact.None? && card.considerations.None?
    requires card.risk_management.None? && card.human_intervention.None?
    requires card.used_data.None? && card.technical_design.None?
    requires card.models.None? && card.assessments.None?
    requires card.owners == [] && card.labels == [] && card.legal_base == []
    requires card.external_providers == [] && card.references == []
    ensures EmittedKeys(card) == ["version"]
  {
    var slots := KeySlots(card);
    var rest := slots[1..];
    assert FieldsSet(card) == [true] + seq(20, _ => false);
    assert forall k :: 0 <= k < |rest| ==> rest[k] == None by {
      forall k | 0 <= k < |rest|
        ensures rest[k] == None
      {
        assert rest[k] == slots[k + 1];
        assert !FieldsSet(card)[k + 1];
      }
    }
    assert Compact(rest) == [] by {
      if Compact(rest) != [] {
        CompactMember(rest, Compact(rest)[0]);
      }
    }
    assert slots == [slots[0]] + rest;
    CompactAppend([slots[0]], rest);
    assert [slots[0]][1..] == [];
  }

  /** Of any card, a list-valued key is serialised exactly when its list is non-empty. */
  lemma CardListKeys(card: SystemCard)
    ensures "owners" in EmittedKeys(card) <==> card.owners != []
    ensures "labels" in EmittedKeys(card) <==> card.labels != []
    ensures "legal_base" in EmittedKeys(card) <==> card.legal_base != []
    ensures "external_providers" in EmittedKeys(card) <==> card.external_providers != []
    ensures "references" in EmittedKeys(card) <==> card.references != []
  {
    assert "owners" in EmittedKeys(card) <==> card.owners != [] by {
      KeyEmittedIff(card, 3);
      assert FieldNames[3] == "owners" && FieldsSet(card)[3] == (card.owners != []);
    }
    assert "labels" in EmittedKeys(card) <==> card.labels != [] by {
      KeyEmittedIff(card, 5);
      assert FieldNames[5] == "labels" && FieldsSet(card)[5] == (card.labels != []);
    }
    assert "legal_base" in EmittedKeys(card) <==> card.legal_base != [] by {
      KeyEmittedIff(card, 14);
      assert FieldNames[14] == "legal_base" && FieldsSet(card)[14] == (card.legal_base != []);
    }
    assert "external_providers" in EmittedKeys(card) <==> card.external_providers != [] by {
      KeyEmittedIff(card, 17);
      assert FieldNames[17] == "external_providers" && FieldsSet(card)[17] == (card.external_providers != []);
    }
    assert "references" in EmittedKeys(card) <==> card.references != [] by {
      KeyEmittedIff(card, 18);
      assert FieldNames[18] == "references" && FieldsSet(card)[18] == (card.references != []);
    }
  }

  /** Of any card, `upl`, `models` and `assessments` are serialised exactly when present. */
  lemma CardOptionKeys(card: SystemCard)
    ensures "upl" in EmittedKeys(card) <==> card.upl.Some?
    ensures "models" in EmittedKeys(card) <==> card.models.Some?
    ensures "assessments" in EmittedKeys(card) <==> card.assessments.Some?
  {
    assert "upl" in EmittedKeys(card) <==> card.upl.Some? by {
      KeyEmittedIff(card, 2);
      assert FieldNames[2] == "upl" && FieldsSet(card)[2] == (card.upl.Some?);
    }
    assert "models" in EmittedKeys(card) <==> card.models.Some? by {
      KeyEmittedIff(card, 19);
      assert FieldNames[19] == "models" && FieldsSet(card)[19] == (card.models.Some?);
    }
    assert "assessments" in EmittedKeys(card) <==> card.assessments.Some? by {
      KeyEmittedIff(card, 20);
      assert FieldNames[20] == "assessments" && FieldsSet(card)[20] == (card.assessments.Some?);
    }
  }

  /** The serialised card of a record always has `owners`, never has `upl`, `models` or
      `assessments`, and has `labels`, `references`, `external_providers` and `legal_base`
      exactly when the record supplies something for them. */
  lemma MappedCardKeys(r: Record)
    ensures var keys := EmittedKeys(CardOf(r));
      && "owners" in keys
      && "upl" !in keys && "models" !in keys && "assessments" !in keys
      && ("labels" in keys <==> exists j :: 0 <= j < |LabelNames| && LabelSources(r)[j].Some?)
      && ("references" in keys <==> exists j :: 0 <= j < 5 && ReferenceSources(r)[j].Some?)
      && ("external_providers" in keys <==> r.provider.Some?)
      && ("legal_base" in keys <==> LegalBasesOf(r) != [])
  {
    CardListKeys(CardOf(r));
    CardOptionKeys(CardOf(r));
    LabelsNonEmptyIff(r);
    ReferencesNonEmptyIff(r);
    ExternalProvidersOfProvider(r);
  }

  lemma LabelsNonEmptyIff(r: Record)
    ensures LabelsOf(r) != [] <==> exists j :: 0 <= j < |LabelNames| && LabelSources(r)[j].Some?
  {
    var slots := LabelSlots(r);
    if LabelsOf(r) != [] {
      CompactMember(slots, LabelsOf(r)[0]);
    }
    if j :| 0 <= j < |LabelNames| && LabelSources(r)[j].Some? {
      LabelsInColumnOrder(r, j);
    }
  }

  lemma ReferencesNonEmptyIff(r: Record)
    ensures ReferencesOf(r) != [] <==> exists j :: 0 <= j < 5 && ReferenceSources(r)[j].Some?
  {
    if ReferencesOf(r) != [] {
      CompactMember(ReferenceSources(r), ReferencesOf(r)[0]);
    }
    if j :| 0 <= j < 5 && ReferenceSources(r)[j].Some? {
      ReferencesInColumnOrder(r, j);
    }
  }
}
