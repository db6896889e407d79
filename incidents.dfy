/** The declarative part of the `Incident` model (incidents/models.py): the two
    closed choice enumerations, the row type of the `incidents` table, the
    declared defaults and length bounds, the composite business key, the
    default ordering `["-date", "-inc_id"]` and the string form `__str__`. */
module Incidents {

  datatype Option<T> = None | Some(value: T) {
    /** The value if present, else `default` (how an omitted field takes its default). */
    function GetOr(default: T): T {
      match this
      case Some(v) => v
      case None => default
    }
  }

  /** A DateTimeField, as an abstract clock reading supplied by the caller. */
  type Time = int

  /** `max_length` of the `incident_type` and `status` columns. */
  const MaxChoiceLength: nat := 20
  /** `max_length` of the `responsible` column. */
  const MaxResponsibleLength: nat := 120

  /** `Incident.IncidentType`: the four declared choices of the column. */
  datatype IncidentType = Falla | Seguridad | Operacion | Otro

  /** `Incident.IncidentStatus`: the four declared choices of the column.
      Any status may follow any other: no transition rule exists. */
  datatype IncidentStatus = Abierto | EnProceso | Resuelto | Cerrado

  const DefaultType: IncidentType := Otro
  const DefaultStatus: IncidentStatus := Abierto
  const DefaultActive: bool := true

  /** The text stored in the `incident_type` column for a choice. */
  function TypeValue(t: IncidentType): (v: string)
    ensures 0 < |v| <= MaxChoiceLength
    ensures ' ' !in v
  {
    match t
    case Falla => "FALLA"
    case Seguridad => "SEGURIDAD"
    case Operacion => "OPERACION"
    case Otro => "OTRO"
  }

  /** The text stored in the `status` column for a choice. */
  function StatusValue(s: IncidentStatus): (v: string)
    ensures 0 < |v| <= MaxChoiceLength
    ensures ' ' !in v
  {
    match s
    case Abierto => "ABIERTO"
    case EnProceso => "EN_PROCESO"
    case Resuelto => "RESUELTO"
    case Cerrado => "CERRADO"
  }

  /** Choice validation of the `incident_type` column: a stored text is accepted
      exactly when it is the value of some choice, and then names that choice. */
  function TypeFromValue(s: string): (t: Option<IncidentType>)
    ensures forall u :: t == Some(u) <==> TypeValue(u) == s
  {
    if s == "FALLA" then Some(Falla)
    else if s == "SEGURIDAD" then Some(Seguridad)
    else if s == "OPERACION" then Some(Operacion)
    else if s == "OTRO" then Some(Otro)
    else None
  }

  /** Choice validation of the `status` column. */
  function StatusFromValue(s: string): (t: Option<IncidentStatus>)
    ensures forall u :: t == Some(u) <==> StatusValue(u) == s
  {
    if s == "ABIERTO" then Some(Abierto)
    else if s == "EN_PROCESO" then Some(EnProceso)
    else if s == "RESUELTO" then Some(Resuelto)
    else if s == "CERRADO" then Some(Cerrado)
    else None
  }

  /** One row of the `incidents` table. */
  datatype Incident = Incident(
    incId: nat,
    date: Time,
    incidentType: IncidentType,
    description: string,
    status: IncidentStatus,
    responsible: string,
    isActive: bool,
    createdAt: Time,
    updatedAt: Time)

  /** The declared bound a stored row respects (choice membership is the type). */
  predicate WellFormed(r: Incident) {
    |r.responsible| <= MaxResponsibleLength
  }

  /** The columns of `uq_incident_date_type_responsible`. */
  datatype BusinessKey = BusinessKey(date: Time, incidentType: IncidentType, responsible: string)

  function KeyOf(r: Incident): BusinessKey {
    BusinessKey(r.date, r.incidentType, r.responsible)
  }

  /** The row a create inserts under `id`, each omitted field taking its
      declared default (`date` from the clock) and both timestamps set to `now`. */
  function NewRow(id: nat, date: Option<Time>, incidentType: Option<IncidentType>, description: string,
                  status: Option<IncidentStatus>, responsible: string, isActive: Option<bool>,
                  now: Time): (r: Incident)
    ensures r.incId == id && r.createdAt == now && r.updatedAt == now
    ensures r.description == description && r.responsible == responsible
    ensures date.Some? ==> r.date == date.value
    ensures incidentType.Some? ==> r.incidentType == incidentType.value
    ensures status.Some? ==> r.status == status.value
    ensures isActive.Some? ==> r.isActive == isActive.value
    ensures date.None? ==> r.date == now
    ensures incidentType.None? ==> r.incidentType == DefaultType
    ensures status.None? ==> r.status == DefaultStatus
    ensures isActive.None? ==> r.isActive == DefaultActive
  {
    Incident(id, date.GetOr(now), incidentType.GetOr(DefaultType), description,
             status.GetOr(DefaultStatus), responsible, isActive.GetOr(DefaultActive), now, now)
  }

  /** A create that names only the required fields gets every declared default. */
  lemma CreateDefaults(id: nat, description: string, responsible: string, now: Time)
    ensures var r := NewRow(id, None, None, description, None, responsible, None, now);
            && r.incidentType == Otro && r.status == Abierto && r.isActive
            && r.date == now && r.createdAt == now && r.updatedAt == now
            && r.incId == id && r.description == description && r.responsible == responsible
  {
  }

  /** `Meta.ordering = ["-date", "-inc_id"]`: `a` is listed before `b`. */
  predicate ListedBefore(a: Incident, b: Incident) {
    a.date > b.date || (a.date == b.date && a.incId > b.incId)
  }

  predicate SortedByDefaultOrder(s: seq<Incident>) {
    forall i, j :: 0 <= i < j < |s| ==> ListedBefore(s[i], s[j])
  }

  /** The default ordering is a strict total order on rows with distinct ids. */
  lemma ListedBeforeIsStrictTotal(a: Incident, b: Incident, c: Incident)
    ensures !ListedBefore(a, a)
    ensures ListedBefore(a, b) ==> !ListedBefore(b, a)
    ensures ListedBefore(a, b) && ListedBefore(b, c) ==> ListedBefore(a, c)
    ensures a.incId != b.incId ==> ListedBefore(a, b) || ListedBefore(b, a)
  {
  }

  /** Two sorted listings of the same rows start with the same row: each
      listing's head is listed no later than the other's. */
  lemma SortedHeadsAgree(a: seq<Incident>, b: seq<Incident>)
    requires SortedByDefaultOrder(a) && SortedByDefaultOrder(b)
    requires multiset(a) == multiset(b) && a != [] && b != []
    ensures a[0] == b[0]
  {
    assert a[0] in multiset(b);
    assert b[0] in multiset(a);
    var i :| 0 <= i < |a| && a[i] == b[0];
    var j :| 0 <= j < |b| && b[j] == a[0];
    assert ListedBefore(a[0], b[0]) || i == 0;
    assert ListedBefore(b[0], a[0]) || j == 0;
  }

  lemma MultisetTail(a: seq<Incident>)
    requires a != []
    ensures multiset(a[1..]) == multiset(a) - multiset{a[0]}
  {
    assert a == [a[0]] + a[1..];
  }

  /** A listing in the default order is determined by the rows it holds:
      two sorted arrangements of the same rows are the same sequence. */
  lemma {:induction false} SortedListingUnique(a: seq<Incident>, b: seq<Incident>)
    requires SortedByDefaultOrder(a) && SortedByDefaultOrder(b)
    requires multiset(a) == multiset(b)
    ensures a == b
    decreases |a|
  {
    assert |a| == |multiset(a)| == |multiset(b)| == |b|;
    if a != [] {
      SortedHeadsAgree(a, b);
      MultisetTail(a);
      MultisetTail(b);
      SortedListingUnique(a[1..], b[1..]);
      assert a == [a[0]] + a[1..];
      assert b == [b[0]] + b[1..];
    }
  }

  predicate IsDigit(c: char) {
    '0' <= c <= '9'
  }

  predicate AllDigits(s: string) {
    forall c :: c in s ==> IsDigit(c)
  }

  function DigitChar(d: nat): (c: char)
    requires d < 10
    ensures IsDigit(c) && c as int - '0' as int == d
  {
    ('0' as int + d) as char
  }

  /** Python's `str` of a non-negative integer: its decimal digits. */
  function Decimal(n: nat): (s: string)
    ensures |s| > 0 && AllDigits(s)
    decreases n
  {
    if n < 10 then [DigitChar(n)] else Decimal(n / 10) + [DigitChar(n % 10)]
  }

  function DecimalValue(s: string): nat
    requires AllDigits(s)
  {
    if s == [] then 0
    else
      var last := s[|s| - 1];
      assert last in s;
      DecimalValue(s[..|s| - 1]) * 10 + (last as int - '0' as int)
  }

  /** Reading the digits back yields the number. */
  lemma {:induction false} DecimalRoundTrip(n: nat)
    ensures DecimalValue(Decimal(n)) == n
    decreases n
  {
    if n >= 10 {
      DecimalRoundTrip(n / 10);
      var s := Decimal(n);
      assert s[..|s| - 1] == Decimal(n / 10);
    }
  }

  /** `Incident.__str__`: `#<inc_id> <incident_type> - <status> (<responsible>)`,
      the choices shown by their stored values. (The literal pieces are split
      at the spaces that separate the parts.) */
  function Str(r: Incident): (s: string)
    ensures "#" + Decimal(r.incId) + " " <= s
    ensures |s| > |r.responsible| + 1 && s[|s| - |r.responsible| - 2..] == "(" + r.responsible + ")"
  {
    "#" + (Decimal(r.incId) + (" " + (TypeValue(r.incidentType) + (" " + ("- "
      + (StatusValue(r.status) + (" " + ("(" + (r.responsible + ")")))))))))
  }

  /** The columns the string form shows. */
  datatype StrParts = StrParts(incId: nat, incidentType: IncidentType, status: IncidentStatus, responsible: string)

  function FirstIndex(s: string, c: char): (i: nat)
    ensures i <= |s|
    ensures i < |s| ==> s[i] == c
    ensures forall k :: 0 <= k < i ==> s[k] != c
  {
    if s == [] then 0 else if s[0] == c then 0 else 1 + FirstIndex(s[1..], c)
  }

  /** The text before and after the first space, if there is one. */
  function SplitAtSpace(s: string): Option<(string, string)> {
    var i := FirstIndex(s, ' ');
    if i == |s| then None else Some((s[..i], s[i + 1..]))
  }

  lemma SplitAtSpaceOf(a: string, b: string)
    requires ' ' !in a
    ensures SplitAtSpace(a + (" " + b)) == Some((a, b))
  {
    var s := a + (" " + b);
    var i := FirstIndex(s, ' ');
    assert s[|a|] == ' ';
    assert forall k :: 0 <= k < |a| ==> s[k] == a[k];
    assert i == |a|;
    assert s[..i] == a;
    assert s[i + 1..] == b;
  }

  /** `(<responsible>)` */
  function ParseParenthesized(s: string): Option<string> {
    if |s| < 2 || s[0] != '(' || s[|s| - 1] != ')' then None else Some(s[1..|s| - 1])
  }

  /** `<status> (<responsible>)` */
  function ParseStatusPart(s: string): Option<(IncidentStatus, string)> {
    match SplitAtSpace(s)
    case None => None
    case Some((statusText, tail)) =>
      match (StatusFromValue(statusText), ParseParenthesized(tail))
      case (Some(st), Some(responsible)) => Some((st, responsible))
      case _ => None
  }

  /** `<incident_type> - <status> (<responsible>)` */
  function ParseTypePart(s: string): Option<(IncidentType, IncidentStatus, string)> {
    match SplitAtSpace(s)
    case None => None
    case Some((typeText, rest)) =>
      if |rest| < 2 || rest[..2] != "- " then None
      else match (TypeFromValue(typeText), ParseStatusPart(rest[2..]))
        case (Some(t), Some((st, responsible))) => Some((t, st, responsible))
        case _ => None
  }

  /** Reads a string of the form `Str` produces back into the columns it shows. */
  function ParseStr(s: string): Option<StrParts> {
    if |s| == 0 || s[0] != '#' then None
    else match SplitAtSpace(s[1..])
      case None => None
      case Some((digits, rest)) =>
        if !AllDigits(digits) then None
        else match ParseTypePart(rest)
          case None => None
          case Some((t, st, responsible)) => Some(StrParts(DecimalValue(digits), t, st, responsible))
  }

  lemma ParseStatusPartOf(st: IncidentStatus, responsible: string)
    ensures ParseStatusPart(StatusValue(st) + (" " + ("(" + (responsible + ")")))) == Some((st, responsible))
  {
    var tail := "(" + (responsible + ")");
    SplitAtSpaceOf(StatusValue(st), tail);
    assert tail[1..|tail| - 1] == responsible;
  }

  lemma ParseTypePartOf(t: IncidentType, st: IncidentStatus, responsible: string)
    ensures ParseTypePart(TypeValue(t) + (" " + ("- " + (StatusValue(st) + (" " + ("(" + (responsible + ")")))))))
            == Some((t, st, responsible))
  {
    var tail := StatusValue(st) + (" " + ("(" + (responsible + ")")));
    var rest := "- " + tail;
    SplitAtSpaceOf(TypeValue(t), rest);
    assert rest[..2] == "- ";
    assert rest[2..] == tail;
    ParseStatusPartOf(st, responsible);
  }

  /** The string form loses none of the columns it shows: id, type, status and
      responsible can be read back from it. */
  lemma StrRoundTrip(r: Incident)
    ensures ParseStr(Str(r)) == Some(StrParts(r.incId, r.incidentType, r.status, r.responsible))
  {
    var d := Decimal(r.incId);
    var rest := TypeValue(r.incidentType) + (" " + ("- " + (StatusValue(r.status) + (" " + ("(" + (r.responsible + ")"))))));
    var s := Str(r);
    assert s[1..] == d + (" " + rest);
    assert forall k :: 0 <= k < |d| ==> IsDigit(d[k]);
    SplitAtSpaceOf(d, rest);
    ParseTypePartOf(r.incidentType, r.status, r.responsible);
    DecimalRoundTrip(r.incId);
  }
}
