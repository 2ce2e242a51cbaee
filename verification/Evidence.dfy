/** The billing evidence checker: two validators over an event log and database rows, and the
    per-language summary. A dictionary of the script is a map here, an error message a datatype.
 */
module Evidence {
  import opened Text

  const LANGUAGES := ["python", "typescript", "go", "java", "dotnet"]
  const REQUIRED_SCENARIOS :=
    {"owner-provider-parity", "health", "fixed-price", "llm", "local-negative", "auth-negative"}

  /** What `decimal_or_none` makes of a field: Python decimals include two infinities and a NaN,
      and comparing a NaN raises. */
  datatype Charge = NotNumeric | NaN | PlusInfinity | MinusInfinity | Finite(value: real)

  datatype Event = Event(language: string, scenario: string, invocationId: string, charge: Charge)

  datatype Raised = ComparedNaN

  predicate IsBilled(scenario: string) { scenario == "fixed-price" || scenario == "llm" }

  predicate NotPositive(c: Charge) { c.MinusInfinity? || (c.Finite? && c.value <= 0.0) }
  predicate Above(c: Charge, maxCost: real) { c.PlusInfinity? || (c.Finite? && c.value > maxCost) }
  predicate Acceptable(c: Charge, maxCost: real) { c.Finite? && 0.0 < c.value <= maxCost }

  // ----- events -----

  datatype EventError =
    | NoInvocationId(language: string, scenario: string)
    | ChargeNotNumeric(language: string)
    | ChargeNotPositive(language: string, charge: Charge)
    | ChargeAboveMax(language: string, charge: Charge)
    | MissingScenarios(language: string, missing: set<string>)

  function ScenariosOf(events: seq<Event>, language: string): set<string> {
    set e | e in events && e.language == language :: e.scenario
  }

  predicate Covered(events: seq<Event>, language: string) {
    REQUIRED_SCENARIOS <= ScenariosOf(events, language)
  }

  predicate EventPasses(e: Event, maxCost: real) {
    && (IsBilled(e.scenario) ==> e.invocationId != "")
    && (e.scenario == "llm" ==> Acceptable(e.charge, maxCost))
  }

  /** The exact reasons for which an error is reported about one event. */
  predicate EventFault(e: Event, maxCost: real, error: EventError) {
    match error
    case NoInvocationId(l, s) => e.language == l && e.scenario == s && IsBilled(s) && e.invocationId == ""
    case ChargeNotNumeric(l) => e.language == l && e.scenario == "llm" && e.charge.NotNumeric?
    case ChargeNotPositive(l, c) => e.language == l && e.scenario == "llm" && e.charge == c && NotPositive(c)
    case ChargeAboveMax(l, c) =>
      e.language == l && e.scenario == "llm" && e.charge == c && !NotPositive(c) && Above(c, maxCost)
    case MissingScenarios(_, _) => false
  }

  predicate LanguageFault(events: seq<Event>, languages: seq<string>, error: EventError) {
    && error.MissingScenarios? && error.language in languages
    && error.missing == REQUIRED_SCENARIOS - ScenariosOf(events, error.language) != {}
  }

  predicate SomeEventFault(events: seq<Event>, maxCost: real, error: EventError) {
    exists e :: e in events && EventFault(e, maxCost, error)
  }

  predicate Justified(events: seq<Event>, maxCost: real, error: EventError) {
    SomeEventFault(events, maxCost, error) || LanguageFault(events, LANGUAGES, error)
  }

  function Lookup<V>(m: map<string, V>, key: string, default: V): V {
    if key in m then m[key] else default
  }

  predicate RaisesOn(e: Event) { e.scenario == "llm" && e.charge.NaN? }

  /** The errors of one event, in the order the loop body appends them. */
  function FaultsOf(e: Event, maxCost: real): (errors: seq<EventError>)
    ensures forall error :: error in errors <==> EventFault(e, maxCost, error)
  {
    (if IsBilled(e.scenario) && e.invocationId == "" then [NoInvocationId(e.language, e.scenario)] else [])
    + (if e.scenario != "llm" then []
       else if e.charge.NotNumeric? then [ChargeNotNumeric(e.language)]
       else if NotPositive(e.charge) then [ChargeNotPositive(e.language, e.charge)]
       else if Above(e.charge, maxCost) then [ChargeAboveMax(e.language, e.charge)]
       else [])
  }

  /** The errors about a log, event by event. */
  function EventErrors(events: seq<Event>, maxCost: real): seq<EventError> {
    if events == [] then [] else EventErrors(events[..|events| - 1], maxCost) + FaultsOf(events[|events| - 1], maxCost)
  }

  /** One error for each of the languages that does not show every scenario, in their order. */
  function MissingErrors(events: seq<Event>, languages: seq<string>): seq<EventError> {
    if languages == [] then []
    else
      var last := languages[|languages| - 1];
      var missing := REQUIRED_SCENARIOS - ScenariosOf(events, last);
      MissingErrors(events, languages[..|languages| - 1])
        + if missing == {} then [] else [MissingScenarios(last, missing)]
  }

  /** The error list of a log. */
  function LogErrors(events: seq<Event>, maxCost: real): seq<EventError> {
    EventErrors(events, maxCost) + MissingErrors(events, LANGUAGES)
  }

  lemma EventErrorsSnoc(events: seq<Event>, e: Event, maxCost: real)
    ensures EventErrors(events + [e], maxCost) == EventErrors(events, maxCost) + FaultsOf(e, maxCost)
  {
    assert (events + [e])[..|events|] == events;
  }

  lemma MissingErrorsSnoc(events: seq<Event>, k: nat)
    requires k < |LANGUAGES|
    ensures var missing := REQUIRED_SCENARIOS - ScenariosOf(events, LANGUAGES[k]);
      MissingErrors(events, LANGUAGES[..k + 1])
        == MissingErrors(events, LANGUAGES[..k])
             + if missing == {} then [] else [MissingScenarios(LANGUAGES[k], missing)]
  {
    assert LANGUAGES[..k + 1][..k] == LANGUAGES[..k];
  }

  lemma {:induction false} EventErrorsAreFaults(events: seq<Event>, maxCost: real, error: EventError)
    ensures error in EventErrors(events, maxCost) <==> SomeEventFault(events, maxCost, error)
  {
    if events != [] {
      var front, last := events[..|events| - 1], events[|events| - 1];
      EventErrorsAreFaults(front, maxCost, error);
      assert events == front + [last];
      assert error in FaultsOf(last, maxCost) <==> EventFault(last, maxCost, error);
    }
  }

  lemma {:induction false} MissingErrorsAreFaults(events: seq<Event>, languages: seq<string>, error: EventError)
    ensures error in MissingErrors(events, languages) <==> LanguageFault(events, languages, error)
  {
    if languages != [] {
      var front, last := languages[..|languages| - 1], languages[|languages| - 1];
      MissingErrorsAreFaults(events, front, error);
      assert languages == front + [last];
    }
  }

  /** The error list holds every fault the log has and nothing else. */
  lemma LogErrorsAreJustified(events: seq<Event>, maxCost: real)
    ensures forall error :: error in LogErrors(events, maxCost) <==> Justified(events, maxCost, error)
    ensures LogErrors(events, maxCost) == [] <==> forall error :: !Justified(events, maxCost, error)
  {
    forall error
      ensures error in LogErrors(events, maxCost) <==> Justified(events, maxCost, error)
    {
      EventErrorsAreFaults(events, maxCost, error);
      MissingErrorsAreFaults(events, LANGUAGES, error);
    }
    assert LogErrors(events, maxCost) != [] ==> LogErrors(events, maxCost)[0] in LogErrors(events, maxCost);
  }

  lemma ScenariosSnoc(events: seq<Event>, e: Event, l: string)
    ensures ScenariosOf(events + [e], l)
         == ScenariosOf(events, l) + if e.language == l then {e.scenario} else {}
  {
  }

  lemma SeenSnoc(seen: map<string, set<string>>, events: seq<Event>, e: Event)
    requires forall l :: Lookup(seen, l, {}) == ScenariosOf(events, l)
    ensures var seen' := seen[e.language := Lookup(seen, e.language, {}) + {e.scenario}];
      forall l :: Lookup(seen', l, {}) == ScenariosOf(events + [e], l)
  {
    forall l {
      ScenariosSnoc(events, e, l);
    }
  }

  lemma FaultIsReported(events: seq<Event>, maxCost: real, e: Event)
    requires e in events && !EventPasses(e, maxCost) && !RaisesOn(e)
    ensures exists error :: Justified(events, maxCost, error)
  {
    var error := FaultsOf(e, maxCost)[0];
    assert error in FaultsOf(e, maxCost);
    assert Justified(events, maxCost, error);
  }

  lemma UncoveredIsReported(events: seq<Event>, maxCost: real, l: string)
    requires l in LANGUAGES && !Covered(events, l)
    ensures Justified(events, maxCost, MissingScenarios(l, REQUIRED_SCENARIOS - ScenariosOf(events, l)))
  {
    var s :| s in REQUIRED_SCENARIOS && s !in ScenariosOf(events, l);
    var missing := REQUIRED_SCENARIOS - ScenariosOf(events, l);
    assert s in missing;
    assert LanguageFault(events, LANGUAGES, MissingScenarios(l, missing));
  }

  /** The report on the log is clean exactly when every billed event carries an invocation id,
      every llm charge is a number in (0, maxCost] and each of the five languages shows all six
      scenarios. */
  lemma CleanEvents(events: seq<Event>, maxCost: real)
    ensures (forall error :: !Justified(events, maxCost, error)) && !(exists e :: e in events && RaisesOn(e))
       <==> (forall e :: e in events ==> EventPasses(e, maxCost)) && (forall l :: l in LANGUAGES ==> Covered(events, l))
  {
    if forall error :: !Justified(events, maxCost, error) {
      forall e | e in events && !RaisesOn(e)
        ensures EventPasses(e, maxCost)
      {
        if !EventPasses(e, maxCost) {
          FaultIsReported(events, maxCost, e);
        }
      }
      forall l | l in LANGUAGES
        ensures Covered(events, l)
      {
        if !Covered(events, l) {
          UncoveredIsReported(events, maxCost, l);
        }
      }
    }
  }

  /** Raises exactly when an llm event carries a NaN charge. Otherwise it reports the errors of
      every event in the order of the log, then the languages with missing scenarios, which is
      every fault the log has and nothing else. */
  method ValidateEvents(events: seq<Event>, maxCost: real) returns (r: Result<seq<EventError>, Raised>)
    ensures r.Err? <==> exists e :: e in events && RaisesOn(e)
    ensures r.Ok? ==> r.value == LogErrors(events, maxCost)
    ensures r.Ok? ==> forall error :: error in r.value <==> Justified(events, maxCost, error)
    ensures r == Ok([]) <==>
      (forall e :: e in events ==> EventPasses(e, maxCost)) && (forall l :: l in LANGUAGES ==> Covered(events, l))
  {
    var errors: seq<EventError> := [];
    var seen: map<string, set<string>> := map[];
    for i := 0 to |events|
      invariant forall e :: e in events[..i] ==> !RaisesOn(e)
      invariant forall l :: Lookup(seen, l, {}) == ScenariosOf(events[..i], l)
      invariant errors == EventErrors(events[..i], maxCost)
    {
      var event := events[i];
      assert events[..i + 1] == events[..i] + [event];
      EventErrorsSnoc(events[..i], event, maxCost);
      SeenSnoc(seen, events[..i], event);
      seen := seen[event.language := Lookup(seen, event.language, {}) + {event.scenario}];
      if RaisesOn(event) {
        return Err(ComparedNaN);
      }
      errors := errors + FaultsOf(event, maxCost);
    }
    assert events[..|events|] == events;
    for k := 0 to |LANGUAGES|
      invariant errors == EventErrors(events, maxCost) + MissingErrors(events, LANGUAGES[..k])
    {
      var language := LANGUAGES[k];
      MissingErrorsSnoc(events, k);
      var missing := REQUIRED_SCENARIOS - Lookup(seen, language, {});
      if missing != {} {
        errors := errors + [MissingScenarios(language, missing)];
      }
    }
    assert LANGUAGES[..|LANGUAGES|] == LANGUAGES;
    CleanEvents(events, maxCost);
    LogErrorsAreJustified(events, maxCost);
    r := Ok(errors);
  }

  /** What an event must show, in plain terms. */
  lemma EventPassesExactly(e: Event, maxCost: real)
    ensures EventPasses(e, maxCost) <==>
      && (e.scenario == "fixed-price" || e.scenario == "llm" ==> |e.invocationId| > 0)
      && (e.scenario == "llm" ==> e.charge.Finite? && 0.0 < e.charge.value <= maxCost)
  {
  }

  /** And every language each of the six scenarios. */
  lemma CoveredExactly(events: seq<Event>, language: string)
    ensures Covered(events, language) <==>
      forall s :: s in ["owner-provider-parity", "health", "fixed-price", "llm", "local-negative", "auth-negative"] ==>
        exists k :: 0 <= k < |events| && events[k].language == language && events[k].scenario == s
  {
    forall s
      ensures s in ScenariosOf(events, language) <==>
        exists k :: 0 <= k < |events| && events[k].language == language && events[k].scenario == s
    {
    }
    var names := ["owner-provider-parity", "health", "fixed-price", "llm", "local-negative", "auth-negative"];
    assert forall s :: s in names <==> s in REQUIRED_SCENARIOS;
  }

  // ----- database rows -----

  /** `invocationId` is empty for a null column. */
  datatype InvocationRow = InvocationRow(invocationId: string, charge: Charge)

  datatype LedgerRow = LedgerRow(referenceId: Option<string>)

  datatype AuditRow = AuditRow(invocationId: string, detail: string)

  datatype Db = Db(invocations: seq<InvocationRow>, ledger: seq<LedgerRow>, audit: seq<AuditRow>)

  datatype DbError =
    | RowMissing(language: string, scenario: string, id: string)
    | RowNotPositive(language: string, charge: Charge)
    | RowAboveMax(language: string, charge: Charge)
    | LedgerMissing(language: string, id: string)
    | AuditMissing(language: string, id: string)

  /** Python's `str` of a column: a null reads `None`. */
  function ReferenceText(r: LedgerRow): string {
    match r.referenceId
    case None => "None"
    case Some(id) => id
  }

  predicate MatchesAt(text: string, part: string, k: nat)
    requires k + |part| <= |text|
  {
    text[k..k + |part|] == part
  }

  predicate Contains(text: string, part: string) {
    exists k :: 0 <= k <= |text| - |part| && MatchesAt(text, part, k)
  }

  /** What Python prints for a null stands for it. */
  lemma ReferencesExactly(r: LedgerRow, id: string)
    ensures ReferenceText(r) == id <==> r.referenceId == Some(id) || (r.referenceId == None && id == "None")
  {
  }

  /** The ids whose audit rows are looked for. */
  function ExpectedIds(events: seq<Event>): set<string> {
    set e | e in events && IsBilled(e.scenario) && e.invocationId != "" :: e.invocationId
  }

  /** `order` is one of the orders in which the script may walk the set of expected ids; Python
      leaves the order open. */
  ghost predicate Enumerates(order: seq<string>, ids: set<string>) {
    forall id :: id in order <==> id in ids
  }

  /** A text contains another that stands anywhere in it. */
  lemma ContainsExactly(text: string, part: string)
    ensures Contains(text, part) <==> exists x, y :: text == x + part + y
  {
    if k :| 0 <= k <= |text| - |part| && MatchesAt(text, part, k) {
      assert text == text[..k] + part + text[k + |part|..];
    }
    if x, y :| text == x + part + y {
      assert MatchesAt(text, part, |x|);
    }
  }

  function FirstMention(detail: string, order: seq<string>): string {
    if order == [] then ""
    else if order[0] != "" && Contains(detail, order[0]) then order[0]
    else FirstMention(detail, order[1..])
  }

  /** The id an audit row counts for, or the empty text. */
  function AuditedId(row: AuditRow, order: seq<string>): string {
    var direct := Strip(row.invocationId);
    if direct != "" then direct else FirstMention(row.detail, order)
  }

  method AuditInvocationId(row: AuditRow, order: seq<string>) returns (id: string)
    ensures id == AuditedId(row, order)
  {
    var direct := Strip(row.invocationId);
    if direct != "" {
      return direct;
    }
    for k := 0 to |order|
      invariant FirstMention(row.detail, order) == FirstMention(row.detail, order[k..])
    {
      if order[k] != "" && Contains(row.detail, order[k]) {
        return order[k];
      }
    }
    return "";
  }

  /** The row the lookup table holds for an id: the last one that names it. */
  function RowFor(rows: seq<InvocationRow>, id: string): Option<InvocationRow> {
    if rows == [] then None
    else
      var last := rows[|rows| - 1];
      if last.invocationId == id && id != "" then Some(last) else RowFor(rows[..|rows| - 1], id)
  }

  /** Of several rows that name an id the last one counts, and an empty id is never found. */
  lemma {:induction false} RowForIsLast(rows: seq<InvocationRow>, id: string, k: nat)
    requires k < |rows| && rows[k].invocationId == id && id != ""
    requires forall j :: k < j < |rows| ==> rows[j].invocationId != id
    ensures RowFor(rows, id) == Some(rows[k])
    decreases |rows|
  {
    if k < |rows| - 1 {
      RowForIsLast(rows[..|rows| - 1], id, k);
    }
  }

  function LedgerGroup(rows: seq<LedgerRow>, id: string): seq<LedgerRow> {
    if rows == [] then []
    else
      var last := rows[|rows| - 1];
      LedgerGroup(rows[..|rows| - 1], id) + if ReferenceText(last) == id then [last] else []
  }

  function AuditGroup(rows: seq<AuditRow>, order: seq<string>, id: string): seq<AuditRow> {
    if rows == [] then []
    else
      var last := rows[|rows| - 1];
      AuditGroup(rows[..|rows| - 1], order, id) + if AuditedId(last, order) == id then [last] else []
  }

  predicate HasLedger(db: Db, id: string) {
    exists row :: row in db.ledger && ReferenceText(row) == id
  }

  predicate HasAudit(db: Db, order: seq<string>, id: string) {
    exists row :: row in db.audit && AuditedId(row, order) == id
  }

  predicate DbPasses(e: Event, db: Db, order: seq<string>, maxCost: real) {
    IsBilled(e.scenario) ==>
      var row := RowFor(db.invocations, e.invocationId);
      && row.Some?
      && (e.scenario == "llm" ==>
            && Acceptable(row.value.charge, maxCost)
            && HasLedger(db, e.invocationId)
            && HasAudit(db, order, e.invocationId))
  }

  predicate DbRaisesOn(e: Event, db: Db) {
    var row := RowFor(db.invocations, e.invocationId);
    e.scenario == "llm" && row.Some? && row.value.charge.NaN?
  }

  predicate DbFault(e: Event, db: Db, order: seq<string>, maxCost: real, error: DbError) {
    var row := RowFor(db.invocations, e.invocationId);
    && e.language == error.language
    && IsBilled(e.scenario)
    && match error
       case RowMissing(_, s, id) => e.scenario == s && e.invocationId == id && row.None?
       case RowNotPositive(_, c) =>
         e.scenario == "llm" && row.Some? && row.value.charge == c && (c.NotNumeric? || NotPositive(c))
       case RowAboveMax(_, c) =>
         e.scenario == "llm" && row.Some? && row.value.charge == c && !NotPositive(c) && Above(c, maxCost)
       case LedgerMissing(_, id) => e.scenario == "llm" && row.Some? && e.invocationId == id && !HasLedger(db, id)
       case AuditMissing(_, id) => e.scenario == "llm" && row.Some? && e.invocationId == id && !HasAudit(db, order, id)
  }

  predicate SomeDbFault(events: seq<Event>, db: Db, order: seq<string>, maxCost: real, error: DbError) {
    exists e :: e in events && DbFault(e, db, order, maxCost, error)
  }

  function RowChargeFaults(language: string, charge: Charge, maxCost: real): (errors: seq<DbError>)
    ensures forall error :: error in errors <==>
      || (error == RowNotPositive(language, charge) && (charge.NotNumeric? || NotPositive(charge)))
      || (error == RowAboveMax(language, charge) && !NotPositive(charge) && Above(charge, maxCost))
  {
    if charge.NotNumeric? || NotPositive(charge) then [RowNotPositive(language, charge)]
    else if Above(charge, maxCost) then [RowAboveMax(language, charge)]
    else []
  }

  /** The errors of one event, in the order the loop body appends them. */
  function DbFaultsOf(e: Event, db: Db, order: seq<string>, maxCost: real): (errors: seq<DbError>)
    ensures forall error :: error in errors <==> DbFault(e, db, order, maxCost, error)
  {
    var row := RowFor(db.invocations, e.invocationId);
    if !IsBilled(e.scenario) then []
    else if row.None? then [RowMissing(e.language, e.scenario, e.invocationId)]
    else if e.scenario != "llm" then []
    else
      RowChargeFaults(e.language, row.value.charge, maxCost)
      + (if HasLedger(db, e.invocationId) then [] else [LedgerMissing(e.language, e.invocationId)])
      + (if HasAudit(db, order, e.invocationId) then [] else [AuditMissing(e.language, e.invocationId)])
  }

  /** The error list of the tables, event by event. */
  function DbErrors(events: seq<Event>, db: Db, order: seq<string>, maxCost: real): seq<DbError> {
    if events == [] then []
    else
      DbErrors(events[..|events| - 1], db, order, maxCost) + DbFaultsOf(events[|events| - 1], db, order, maxCost)
  }

  lemma DbErrorsSnoc(events: seq<Event>, e: Event, db: Db, order: seq<string>, maxCost: real)
    ensures DbErrors(events + [e], db, order, maxCost)
         == DbErrors(events, db, order, maxCost) + DbFaultsOf(e, db, order, maxCost)
  {
    assert (events + [e])[..|events|] == events;
  }

  lemma {:induction false} DbErrorsContain(events: seq<Event>, db: Db, order: seq<string>, maxCost: real,
                                           error: DbError)
    ensures error in DbErrors(events, db, order, maxCost) <==> SomeDbFault(events, db, order, maxCost, error)
  {
    if events != [] {
      var front, last := events[..|events| - 1], events[|events| - 1];
      DbErrorsContain(front, db, order, maxCost, error);
      assert events == front + [last];
      assert error in DbFaultsOf(last, db, order, maxCost) <==> DbFault(last, db, order, maxCost, error);
    }
  }

  /** The error list holds every fault of the tables and nothing else. */
  lemma DbErrorsAreFaults(events: seq<Event>, db: Db, order: seq<string>, maxCost: real)
    ensures forall error ::
      error in DbErrors(events, db, order, maxCost) <==> SomeDbFault(events, db, order, maxCost, error)
    ensures DbErrors(events, db, order, maxCost) == []
       <==> forall error :: !SomeDbFault(events, db, order, maxCost, error)
  {
    forall error
      ensures error in DbErrors(events, db, order, maxCost) <==> SomeDbFault(events, db, order, maxCost, error)
    {
      DbErrorsContain(events, db, order, maxCost, error);
    }
    var errors := DbErrors(events, db, order, maxCost);
    assert errors != [] ==> errors[0] in errors;
  }

  lemma DbFaultIsReported(events: seq<Event>, db: Db, order: seq<string>, maxCost: real, e: Event)
    requires e in events && !DbPasses(e, db, order, maxCost) && !DbRaisesOn(e, db)
    ensures exists error :: SomeDbFault(events, db, order, maxCost, error)
  {
    var error := DbFaultsOf(e, db, order, maxCost)[0];
    assert error in DbFaultsOf(e, db, order, maxCost);
    assert SomeDbFault(events, db, order, maxCost, error);
  }

  /** What the tables must show for an event, in plain terms. `k` is the last row with its id. */
  lemma DbPassesExactly(e: Event, db: Db, order: seq<string>, maxCost: real, k: nat)
    requires e.invocationId != "" && k < |db.invocations| && db.invocations[k].invocationId == e.invocationId
    requires forall j :: k < j < |db.invocations| ==> db.invocations[j].invocationId != e.invocationId
    ensures DbPasses(e, db, order, maxCost) <==>
      e.scenario == "llm" ==>
        && db.invocations[k].charge.Finite? && 0.0 < db.invocations[k].charge.value <= maxCost
        && (exists i :: 0 <= i < |db.ledger| && ReferenceText(db.ledger[i]) == e.invocationId)
        && (exists i :: 0 <= i < |db.audit| && AuditedId(db.audit[i], order) == e.invocationId)
  {
    RowForIsLast(db.invocations, e.invocationId, k);
  }

  lemma {:induction false} RowForNonempty(rows: seq<InvocationRow>, id: string)
    ensures RowFor(rows, id).Some? ==> id != ""
    ensures RowFor(rows, id).Some? ==> RowFor(rows, id).value in rows && RowFor(rows, id).value.invocationId == id
  {
    if rows != [] {
      RowForNonempty(rows[..|rows| - 1], id);
    }
  }

  /** An event with an id that no row names fails if it is billed, whatever else the tables hold. */
  lemma UnrecordedFails(e: Event, db: Db, order: seq<string>, maxCost: real)
    requires forall row :: row in db.invocations ==> row.invocationId != e.invocationId || e.invocationId == ""
    ensures DbPasses(e, db, order, maxCost) <==> e.scenario != "fixed-price" && e.scenario != "llm"
  {
    RowForNonempty(db.invocations, e.invocationId);
  }

  /** The report on the tables is clean exactly when every billed event has an invocation row and
      every llm event's row has a charge in (0, maxCost], a ledger row that references it and an
      audit row that is counted for it. */
  lemma CleanDb(events: seq<Event>, db: Db, order: seq<string>, maxCost: real)
    ensures (forall error :: !SomeDbFault(events, db, order, maxCost, error))
         && !(exists e :: e in events && DbRaisesOn(e, db))
       <==> forall e :: e in events ==> DbPasses(e, db, order, maxCost)
  {
    if forall error :: !SomeDbFault(events, db, order, maxCost, error) {
      forall e | e in events && !DbRaisesOn(e, db)
        ensures DbPasses(e, db, order, maxCost)
      {
        if !DbPasses(e, db, order, maxCost) {
          DbFaultIsReported(events, db, order, maxCost, e);
        }
      }
    }
  }

  lemma {:induction false} LedgerGroupHolds(rows: seq<LedgerRow>, id: string)
    ensures LedgerGroup(rows, id) != [] <==> exists row :: row in rows && ReferenceText(row) == id
  {
    if rows != [] {
      LedgerGroupHolds(rows[..|rows| - 1], id);
      assert rows == rows[..|rows| - 1] + [rows[|rows| - 1]];
    }
  }

  lemma {:induction false} AuditGroupHolds(rows: seq<AuditRow>, order: seq<string>, id: string)
    ensures AuditGroup(rows, order, id) != [] <==> exists row :: row in rows && AuditedId(row, order) == id
  {
    if rows != [] {
      AuditGroupHolds(rows[..|rows| - 1], order, id);
      assert rows == rows[..|rows| - 1] + [rows[|rows| - 1]];
    }
  }

  /** The dictionary comprehension over the invocation rows. */
  method RowTable(rows: seq<InvocationRow>) returns (table: map<string, InvocationRow>)
    ensures forall id :: (if id in table then Some(table[id]) else None) == RowFor(rows, id)
  {
    table := map[];
    for i := 0 to |rows|
      invariant forall id :: (if id in table then Some(table[id]) else None) == RowFor(rows[..i], id)
    {
      assert rows[..i + 1][..i] == rows[..i];
      if rows[i].invocationId != "" {
        table := table[rows[i].invocationId := rows[i]];
      }
    }
    assert rows[..|rows|] == rows;
  }

  method LedgerTable(rows: seq<LedgerRow>) returns (table: map<string, seq<LedgerRow>>)
    ensures forall id :: Lookup(table, id, []) == LedgerGroup(rows, id)
  {
    table := map[];
    for i := 0 to |rows|
      invariant forall id :: Lookup(table, id, []) == LedgerGroup(rows[..i], id)
    {
      assert rows[..i + 1][..i] == rows[..i];
      var id := ReferenceText(rows[i]);
      table := table[id := Lookup(table, id, []) + [rows[i]]];
    }
    assert rows[..|rows|] == rows;
  }

  method AuditTable(rows: seq<AuditRow>, order: seq<string>) returns (table: map<string, seq<AuditRow>>)
    ensures forall id :: id != "" ==> Lookup(table, id, []) == AuditGroup(rows, order, id)
  {
    table := map[];
    for i := 0 to |rows|
      invariant forall id :: id != "" ==> Lookup(table, id, []) == AuditGroup(rows[..i], order, id)
    {
      assert rows[..i + 1][..i] == rows[..i];
      var id := AuditInvocationId(rows[i], order);
      if id != "" {
        table := table[id := Lookup(table, id, []) + [rows[i]]];
      }
    }
    assert rows[..|rows|] == rows;
  }

  /** The loop body of the database validator: the errors of one billed event. */
  method ValidateEvent(event: Event, ghost db: Db, ghost order: seq<string>, maxCost: real,
                       invocationRows: map<string, InvocationRow>, ledgerBy: map<string, seq<LedgerRow>>,
                       auditBy: map<string, seq<AuditRow>>)
    returns (r: Result<seq<DbError>, Raised>)
    requires IsBilled(event.scenario)
    requires forall id ::
      (if id in invocationRows then Some(invocationRows[id]) else None) == RowFor(db.invocations, id)
    requires forall id :: Lookup(ledgerBy, id, []) == LedgerGroup(db.ledger, id)
    requires forall id :: id != "" ==> Lookup(auditBy, id, []) == AuditGroup(db.audit, order, id)
    ensures r.Err? <==> DbRaisesOn(event, db)
    ensures r.Ok? ==> r.value == DbFaultsOf(event, db, order, maxCost)
    ensures r.Ok? ==> forall error :: error in r.value <==> DbFault(event, db, order, maxCost, error)
  {
    var id := event.invocationId;
    assert (if id in invocationRows then Some(invocationRows[id]) else None) == RowFor(db.invocations, id);
    if id !in invocationRows {
      return Ok([RowMissing(event.language, event.scenario, id)]);
    }
    var errors := [];
    if event.scenario == "llm" {
      var charge := invocationRows[id].charge;
      if charge.NaN? {
        return Err(ComparedNaN);
      }
      RowForNonempty(db.invocations, id);
      LedgerGroupHolds(db.ledger, id);
      AuditGroupHolds(db.audit, order, id);
      errors := RowChargeFaults(event.language, charge, maxCost);
      if Lookup(ledgerBy, id, []) == [] {
        errors := errors + [LedgerMissing(event.language, id)];
      }
      if Lookup(auditBy, id, []) == [] {
        errors := errors + [AuditMissing(event.language, id)];
      }
    }
    r := Ok(errors);
  }

  /** Raises exactly when the row of some llm event carries a NaN charge. Otherwise it reports the
      errors of every event in the order of the log, which is every fault of the tables and
      nothing else. */
  method ValidateDb(events: seq<Event>, db: Db, order: seq<string>, maxCost: real)
    returns (r: Result<seq<DbError>, Raised>)
    requires Enumerates(order, ExpectedIds(events))
    ensures r.Err? <==> exists e :: e in events && DbRaisesOn(e, db)
    ensures r.Ok? ==> r.value == DbErrors(events, db, order, maxCost)
    ensures r.Ok? ==> forall error :: error in r.value <==> SomeDbFault(events, db, order, maxCost, error)
    ensures r == Ok([]) <==> forall e :: e in events ==> DbPasses(e, db, order, maxCost)
  {
    var errors: seq<DbError> := [];
    var invocationRows := RowTable(db.invocations);
    var ledgerBy := LedgerTable(db.ledger);
    var auditBy := AuditTable(db.audit, order);
    for i := 0 to |events|
      invariant forall e :: e in events[..i] ==> !DbRaisesOn(e, db)
      invariant errors == DbErrors(events[..i], db, order, maxCost)
    {
      var event := events[i];
      assert events[..i + 1] == events[..i] + [event];
      DbErrorsSnoc(events[..i], event, db, order, maxCost);
      if IsBilled(event.scenario) {
        var found := ValidateEvent(event, db, order, maxCost, invocationRows, ledgerBy, auditBy);
        if found.Err? {
          return Err(found.error);
        }
        errors := errors + found.value;
      }
    }
    assert events[..|events|] == events;
    CleanDb(events, db, order, maxCost);
    DbErrorsAreFaults(events, db, order, maxCost);
    r := Ok(errors);
  }

  // ----- attribution of audit rows -----

  function GroupSizes(rows: seq<AuditRow>, order: seq<string>, ids: seq<string>): nat {
    if ids == [] then 0 else |AuditGroup(rows, order, ids[0])| + GroupSizes(rows, order, ids[1..])
  }

  function Attributable(rows: seq<AuditRow>, order: seq<string>): nat {
    if rows == [] then 0
    else Attributable(rows[..|rows| - 1], order) + if AuditedId(rows[|rows| - 1], order) != "" then 1 else 0
  }

  ghost predicate Distinct(ids: seq<string>) {
    forall i, j :: 0 <= i < j < |ids| ==> ids[i] != ids[j]
  }

  lemma {:induction false} NoRowsNoSizes(order: seq<string>, ids: seq<string>)
    ensures GroupSizes([], order, ids) == 0
  {
    if ids != [] {
      NoRowsNoSizes(order, ids[1..]);
    }
  }

  lemma {:induction false} OneRowMore(rows: seq<AuditRow>, order: seq<string>, ids: seq<string>)
    requires rows != [] && Distinct(ids)
    ensures GroupSizes(rows, order, ids)
         == GroupSizes(rows[..|rows| - 1], order, ids) + if AuditedId(rows[|rows| - 1], order) in ids then 1 else 0
  {
    if ids != [] {
      OneRowMore(rows, order, ids[1..]);
      assert ids == [ids[0]] + ids[1..];
    }
  }

  /** No audit row is counted twice and none that names an id is lost: over any list of distinct
      ids that holds every attributed one, the group sizes add up to the attributable rows. */
  lemma {:induction false} AuditRowsConserved(rows: seq<AuditRow>, order: seq<string>, ids: seq<string>)
    requires Distinct(ids) && "" !in ids
    requires forall row :: row in rows && AuditedId(row, order) != "" ==> AuditedId(row, order) in ids
    ensures GroupSizes(rows, order, ids) == Attributable(rows, order)
  {
    if rows == [] {
      NoRowsNoSizes(order, ids);
    } else {
      AuditRowsConserved(rows[..|rows| - 1], order, ids);
      OneRowMore(rows, order, ids);
    }
  }

  /** The only expected id that `detail` mentions is `id`. */
  ghost predicate MentionsOnly(detail: string, id: string, ids: set<string>) {
    && id in ids && Contains(detail, id)
    && forall other :: other in ids && other != id && other != "" ==> !Contains(detail, other)
  }

  ghost predicate FirmlyAudited(db: Db, id: string, ids: set<string>) {
    exists row :: row in db.audit
      && var direct := Strip(row.invocationId);
         direct == id || (direct == "" && MentionsOnly(row.detail, id, ids))
  }

  lemma {:induction false} FirstMentionMentioned(detail: string, order: seq<string>)
    ensures FirstMention(detail, order) == "" ==> forall id :: id in order && id != "" ==> !Contains(detail, id)
    ensures FirstMention(detail, order) != "" ==>
      FirstMention(detail, order) in order && Contains(detail, FirstMention(detail, order))
  {
    if order != [] {
      FirstMentionMentioned(detail, order[1..]);
      assert order == [order[0]] + order[1..];
    }
  }

  lemma {:induction false} FirstMentionAppend(detail: string, order: seq<string>, id: string)
    ensures FirstMention(detail, order + [id])
         == if FirstMention(detail, order) != "" then FirstMention(detail, order)
            else if id != "" && Contains(detail, id) then id else ""
  {
    if order == [] {
      assert order + [id] == [id];
      assert FirstMention(detail, [id][1..]) == "";
    } else {
      FirstMentionAppend(detail, order[1..], id);
      assert (order + [id])[1..] == order[1..] + [id];
    }
  }

  lemma FirmRowCounts(db: Db, id: string, ids: set<string>, order: seq<string>)
    requires FirmlyAudited(db, id, ids) && Enumerates(order, ids) && id != ""
    ensures HasAudit(db, order, id)
  {
    var row :| row in db.audit
      && var direct := Strip(row.invocationId);
         direct == id || (direct == "" && MentionsOnly(row.detail, id, ids));
    FirstMentionMentioned(row.detail, order);
    assert AuditedId(row, order) == id;
  }

  ghost function ListOf(ids: set<string>): (order: seq<string>)
    ensures Enumerates(order, ids)
  {
    if ids == {} then []
    else
      var id :| id in ids;
      [id] + ListOf(ids - {id})
  }

  /** The script walks a set, so which id a row with several mentions counts for is left open. An
      id is sure to have an audit row, whatever the walk, exactly when some row names it in its
      own column or mentions it and no other expected id. */
  lemma AuditedInEveryOrder(db: Db, id: string, ids: set<string>)
    requires id in ids && id != ""
    ensures (forall order :: Enumerates(order, ids) ==> HasAudit(db, order, id)) <==> FirmlyAudited(db, id, ids)
  {
    if FirmlyAudited(db, id, ids) {
      forall order | Enumerates(order, ids)
        ensures HasAudit(db, order, id)
      {
        FirmRowCounts(db, id, ids, order);
      }
    }
    if forall order :: Enumerates(order, ids) ==> HasAudit(db, order, id) {
      var others := ListOf(ids - {id});
      var order := others + [id];
      assert Enumerates(order, ids);
      var row :| row in db.audit && AuditedId(row, order) == id;
      if Strip(row.invocationId) == "" {
        FirstMentionAppend(row.detail, others, id);
        FirstMentionMentioned(row.detail, others);
        assert MentionsOnly(row.detail, id, ids);
      }
    }
  }

  /** An event passes every walk of the ids. */
  ghost predicate FirmlyPasses(e: Event, db: Db, ids: set<string>, maxCost: real) {
    IsBilled(e.scenario) ==>
      var row := RowFor(db.invocations, e.invocationId);
      && row.Some?
      && (e.scenario == "llm" ==>
            && Acceptable(row.value.charge, maxCost)
            && HasLedger(db, e.invocationId)
            && FirmlyAudited(db, e.invocationId, ids))
  }

  ghost predicate PassesEveryWalk(e: Event, db: Db, ids: set<string>, maxCost: real) {
    forall order :: Enumerates(order, ids) ==> DbPasses(e, db, order, maxCost)
  }

  lemma EventInEveryOrder(e: Event, db: Db, ids: set<string>, maxCost: real)
    requires IsBilled(e.scenario) && e.invocationId != "" ==> e.invocationId in ids
    ensures PassesEveryWalk(e, db, ids, maxCost) <==> FirmlyPasses(e, db, ids, maxCost)
  {
    var order := ListOf(ids);
    RowForNonempty(db.invocations, e.invocationId);
    if e.scenario == "llm" && RowFor(db.invocations, e.invocationId).Some? {
      AuditedInEveryOrder(db, e.invocationId, ids);
    }
    if PassesEveryWalk(e, db, ids, maxCost) {
      assert DbPasses(e, db, order, maxCost);
      forall order | Enumerates(order, ids) && e.scenario == "llm"
        ensures HasAudit(db, order, e.invocationId)
      {
        assert DbPasses(e, db, order, maxCost);
      }
    }
  }

  /** The report on the tables is clean under every walk of the expected ids exactly when every event
      passes with the audit condition that no walk can upset. */
  lemma CleanInEveryOrder(events: seq<Event>, db: Db, maxCost: real)
    ensures (forall order :: Enumerates(order, ExpectedIds(events)) ==>
               forall e :: e in events ==> DbPasses(e, db, order, maxCost))
       <==> forall e :: e in events ==> FirmlyPasses(e, db, ExpectedIds(events), maxCost)
  {
    var ids := ExpectedIds(events);
    forall e | e in events
      ensures PassesEveryWalk(e, db, ids, maxCost) <==> FirmlyPasses(e, db, ids, maxCost)
    {
      EventInEveryOrder(e, db, ids, maxCost);
    }
    if forall e :: e in events ==> FirmlyPasses(e, db, ids, maxCost) {
      forall order, e | Enumerates(order, ids) && e in events
        ensures DbPasses(e, db, order, maxCost)
      {
        assert PassesEveryWalk(e, db, ids, maxCost);
      }
    }
  }

  /** A row without an id of its own counts, under every walk, for the one expected id that stands
      somewhere in its detail. */
  lemma MentionedIsAttributed(x: string, id: string, y: string, own: string, ids: set<string>, order: seq<string>)
    requires AllOf(IsPythonSpace, own)
    requires id in ids && id != "" && Enumerates(order, ids)
    requires forall other, l, r :: other in ids && other != id && other != "" ==> x + id + y != l + other + r
    ensures AuditedId(AuditRow(own, x + id + y), order) == id
  {
    var detail := x + id + y;
    TrimExact(IsPythonSpace, own, "", "");
    assert own + "" + "" == own;
    ContainsExactly(detail, id);
    FirstMentionMentioned(detail, order);
    ContainsExactly(detail, FirstMention(detail, order));
  }

  /** A row with an id of its own counts for that, whatever its detail mentions. */
  lemma OwnIdIsAttributed(before: string, id: string, behind: string, detail: string, order: seq<string>)
    requires AllOf(IsPythonSpace, before) && AllOf(IsPythonSpace, behind)
    requires id != "" && !IsPythonSpace(id[0]) && !IsPythonSpace(id[|id| - 1])
    ensures AuditedId(AuditRow(before + id + behind, detail), order) == id
  {
    TrimExact(IsPythonSpace, before, id, behind);
  }

  /** Of several expected ids in its detail a row counts for the one the walk comes to first. */
  lemma {:induction false} FirstMentionedIsAttributed(detail: string, order: seq<string>, k: nat)
    requires k < |order| && order[k] != "" && Contains(detail, order[k])
    requires forall j :: 0 <= j < k && order[j] != "" ==> !Contains(detail, order[j])
    ensures FirstMention(detail, order) == order[k]
  {
    if k > 0 {
      assert forall j :: 0 <= j < k ==> order[1..][j] == order[j + 1];
      FirstMentionedIsAttributed(detail, order[1..], k - 1);
    }
  }

  function TwoCalls(): seq<Event> {
    [Event("go", "llm", "a", Finite(0.001)), Event("java", "llm", "b", Finite(0.001))]
  }

  /** Both calls are recorded; `b` is audited only by a row whose detail mentions `a` as well. */
  function SharedMention(): Db {
    Db([InvocationRow("a", Finite(0.001)), InvocationRow("b", Finite(0.001))],
       [LedgerRow(Some("a")), LedgerRow(Some("b"))],
       [AuditRow("a", ""), AuditRow("", "ab")])
  }

  lemma SharedAttribution()
    ensures AuditedId(AuditRow("a", ""), ["a", "b"]) == AuditedId(AuditRow("a", ""), ["b", "a"]) == "a"
    ensures AuditedId(AuditRow("", "ab"), ["a", "b"]) == "a"
    ensures AuditedId(AuditRow("", "ab"), ["b", "a"]) == "b"
  {
    assert MatchesAt("ab", "a", 0) && MatchesAt("ab", "b", 1);
    assert Contains("ab", "a") && Contains("ab", "b");
  }

  lemma SharedRows()
    ensures RowFor(SharedMention().invocations, "a") == Some(InvocationRow("a", Finite(0.001)))
    ensures RowFor(SharedMention().invocations, "b") == Some(InvocationRow("b", Finite(0.001)))
  {
    var rows := SharedMention().invocations;
    assert rows[..1] == [rows[0]];
    assert RowFor(rows, "a") == RowFor(rows[..1], "a");
  }

  lemma SharedEvidence()
    ensures HasLedger(SharedMention(), "a") && HasLedger(SharedMention(), "b")
    ensures HasAudit(SharedMention(), ["b", "a"], "a") && HasAudit(SharedMention(), ["b", "a"], "b")
    ensures !HasAudit(SharedMention(), ["a", "b"], "b")
  {
    var db := SharedMention();
    SharedAttribution();
    assert db.audit[0] in db.audit && db.audit[1] in db.audit;
    assert db.ledger[0] in db.ledger && db.ledger[1] in db.ledger;
  }

  /** The verdict does depend on the walk: the same log and tables fail under one order of the
      expected ids and pass under the other. */
  lemma VerdictDependsOnOrder()
    ensures Enumerates(["a", "b"], ExpectedIds(TwoCalls())) && Enumerates(["b", "a"], ExpectedIds(TwoCalls()))
    ensures SomeDbFault(TwoCalls(), SharedMention(), ["a", "b"], 0.01, AuditMissing("java", "b"))
    ensures forall e :: e in TwoCalls() ==> DbPasses(e, SharedMention(), ["b", "a"], 0.01)
  {
    var events := TwoCalls();
    assert ExpectedIds(events) == {"a", "b"} by {
      assert events[0] in events && events[1] in events;
    }
    SharedRows();
    SharedEvidence();
    assert DbFault(events[1], SharedMention(), ["a", "b"], 0.01, AuditMissing("java", "b"));
    assert events[1] in events;
  }

  // ----- the summary -----

  datatype SummaryRow = SummaryRow(language: string, passed: bool, fixed: Option<Event>, llm: Option<Event>)

  /** The event the summary shows for a language and scenario: the last one logged. */
  function LastEvent(events: seq<Event>, language: string, scenario: string): Option<Event> {
    if events == [] then None
    else
      var last := events[|events| - 1];
      if last.language == language && last.scenario == scenario then Some(last)
      else LastEvent(events[..|events| - 1], language, scenario)
  }

  /** Of several events of a language and scenario the summary shows the last. */
  lemma {:induction false} LastEventIsLast(events: seq<Event>, language: string, scenario: string, k: nat)
    requires k < |events| && events[k].language == language && events[k].scenario == scenario
    requires forall j :: k < j < |events| ==> events[j].language != language || events[j].scenario != scenario
    ensures LastEvent(events, language, scenario) == Some(events[k])
    decreases |events|
  {
    if k < |events| - 1 {
      LastEventIsLast(events[..|events| - 1], language, scenario, k);
    }
  }

  function Entry(table: map<string, map<string, Event>>, language: string, scenario: string): Option<Event> {
    var row := Lookup(table, language, map[]);
    if scenario in row then Some(row[scenario]) else None
  }

  lemma {:induction false} LastEventShown(events: seq<Event>, language: string, scenario: string)
    ensures LastEvent(events, language, scenario).Some? <==> scenario in ScenariosOf(events, language)
  {
    if events != [] {
      var front, last := events[..|events| - 1], events[|events| - 1];
      LastEventShown(front, language, scenario);
      assert events == front + [last];
      ScenariosSnoc(front, last, language);
    }
  }

  method BuildSummary(events: seq<Event>) returns (rows: seq<SummaryRow>)
    ensures |rows| == |LANGUAGES|
    ensures forall k :: 0 <= k < |rows| ==>
      && rows[k].language == LANGUAGES[k]
      && (rows[k].passed <==> Covered(events, LANGUAGES[k]))
      && rows[k].fixed == LastEvent(events, LANGUAGES[k], "fixed-price")
      && rows[k].llm == LastEvent(events, LANGUAGES[k], "llm")
  {
    var byLanguage: map<string, map<string, Event>> := map[];
    for i := 0 to |events|
      invariant forall l, s :: Entry(byLanguage, l, s) == LastEvent(events[..i], l, s)
    {
      assert events[..i + 1][..i] == events[..i];
      var e := events[i];
      byLanguage := byLanguage[e.language := Lookup(byLanguage, e.language, map[])[e.scenario := e]];
    }
    assert events[..|events|] == events;
    rows := [];
    for k := 0 to |LANGUAGES|
      invariant |rows| == k
      invariant forall j :: 0 <= j < k ==>
        && rows[j].language == LANGUAGES[j]
        && (rows[j].passed <==> Covered(events, LANGUAGES[j]))
        && rows[j].fixed == LastEvent(events, LANGUAGES[j], "fixed-price")
        && rows[j].llm == LastEvent(events, LANGUAGES[j], "llm")
    {
      var language := LANGUAGES[k];
      var shown := Lookup(byLanguage, language, map[]);
      var passed := forall s :: s in REQUIRED_SCENARIOS ==> s in shown;
      forall s
        ensures s in shown <==> s in ScenariosOf(events, language)
      {
        assert Entry(byLanguage, language, s) == LastEvent(events, language, s);
        LastEventShown(events, language, s);
      }
      var fixed, llm := Entry(byLanguage, language, "fixed-price"), Entry(byLanguage, language, "llm");
      rows := rows + [SummaryRow(language, passed, fixed, llm)];
    }
  }

  /** The summary and the error list agree: a language is marked passed exactly when no missing
      scenarios are reported for it. */
  lemma SummaryAgrees(events: seq<Event>, maxCost: real, language: string)
    requires language in LANGUAGES
    ensures Covered(events, language)
       <==> !exists missing :: Justified(events, maxCost, MissingScenarios(language, missing))
  {
    if !Covered(events, language) {
      UncoveredIsReported(events, maxCost, language);
    }
  }

  ghost predicate Certified(e: Event, db: Db, order: seq<string>, maxCost: real) {
    && e.scenario == "llm" && e.invocationId != "" && Acceptable(e.charge, maxCost)
    && HasLedger(db, e.invocationId) && HasAudit(db, order, e.invocationId)
    && exists row :: row in db.invocations && row.invocationId == e.invocationId && Acceptable(row.charge, maxCost)
  }

  /** What a report with no error at all certifies: every language made an llm call that it logged
      with an id and an acceptable charge, and the database holds that call with an acceptable
      charge, a ledger row and an audit row. */
  lemma CleanReportCertifies(events: seq<Event>, db: Db, order: seq<string>, maxCost: real, language: string)
    requires language in LANGUAGES
    requires forall error :: !Justified(events, maxCost, error)
    requires forall e :: e in events ==> !RaisesOn(e) && !DbRaisesOn(e, db)
    requires forall error :: !SomeDbFault(events, db, order, maxCost, error)
    ensures exists e :: e in events && e.language == language && Certified(e, db, order, maxCost)
  {
    CleanEvents(events, maxCost);
    CleanDb(events, db, order, maxCost);
    assert Covered(events, language);
    assert "llm" in ScenariosOf(events, language);
    var e :| e in events && e.language == language && e.scenario == "llm";
    assert EventPasses(e, maxCost) && DbPasses(e, db, order, maxCost);
    assert RowFor(db.invocations, e.invocationId).Some?;
    RowForNonempty(db.invocations, e.invocationId);
  }
}
