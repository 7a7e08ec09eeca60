/** The alert settings page (app/alerts/page.tsx): the fixed catalog of four
    threshold rules, the per-rule on/off map the user edits, and the save
    operation that replaces every alert row of one e-mail address in the
    alert_rules table with one row per enabled rule. */
module Alerts {
  // ---------------------------------------------------------------------
  // The rule catalog

  datatype SymbolCode = VIX | NIKKEI_VI

  datatype Direction = AtLeast | AtMost

  datatype Severity = Notice | Warning

  datatype Option<T> = None | Some(value: T)

  datatype RuleId = VIX_25 | VIX_40 | NIKKEI_30 | NIKKEI_45

  /** A rule of the catalog; its display title and description are text
      only and are not part of the model. */
  datatype RuleDef = RuleDef(id: RuleId, symbol: SymbolCode, direction: Direction, threshold: int, severity: Severity)

  const RuleDefs: seq<RuleDef> := [
    RuleDef(VIX_25, VIX, AtLeast, 25, Notice),
    RuleDef(VIX_40, VIX, AtLeast, 40, Warning),
    RuleDef(NIKKEI_30, NIKKEI_VI, AtLeast, 30, Notice),
    RuleDef(NIKKEI_45, NIKKEI_VI, AtLeast, 45, Warning)
  ]

  /** Position of a rule id in the catalog. */
  function Rank(id: RuleId): (k: nat)
    ensures k < |RuleDefs| && RuleDefs[k].id == id
  {
    match id
    case VIX_25 => 0
    case VIX_40 => 1
    case NIKKEI_30 => 2
    case NIKKEI_45 => 3
  }

  /** The catalog: four rules, all of the form "at least a threshold", one
      per id and listed by rank. */
  lemma CatalogFacts()
    ensures |RuleDefs| == 4
    ensures forall i :: 0 <= i < |RuleDefs| ==> RuleDefs[i].direction == AtLeast
    ensures forall i :: 0 <= i < |RuleDefs| ==> Rank(RuleDefs[i].id) == i
    ensures RuleDefs[0].symbol == VIX && RuleDefs[0].threshold == 25 && RuleDefs[0].severity == Notice
    ensures RuleDefs[1].symbol == VIX && RuleDefs[1].threshold == 40 && RuleDefs[1].severity == Warning
    ensures RuleDefs[2].symbol == NIKKEI_VI && RuleDefs[2].threshold == 30 && RuleDefs[2].severity == Notice
    ensures RuleDefs[3].symbol == NIKKEI_VI && RuleDefs[3].threshold == 45 && RuleDefs[3].severity == Warning
  {
  }

  // ---------------------------------------------------------------------
  // The on/off map

  /** The EnabledMap record: a boolean for every rule id. */
  datatype EnabledMap = EnabledMap(vix25: bool, vix40: bool, nikkei30: bool, nikkei45: bool)
  {
    /** this[id]: the flag of id, the fields being listed in catalog order. */
    function Get(id: RuleId): (b: bool)
      ensures b == [vix25, vix40, nikkei30, nikkei45][Rank(id)]
    {
      match id
      case VIX_25 => vix25
      case VIX_40 => vix40
      case NIKKEI_30 => nikkei30
      case NIKKEI_45 => nikkei45
    }

    /** { ...this, [id]: value }: id gets value, the other ids keep theirs. */
    function Set(id: RuleId, value: bool): (r: EnabledMap)
      ensures r.Get(id) == value
      ensures forall other: RuleId :: other != id ==> r.Get(other) == Get(other)
    {
      match id
      case VIX_25 => this.(vix25 := value)
      case VIX_40 => this.(vix40 := value)
      case NIKKEI_30 => this.(nikkei30 := value)
      case NIKKEI_45 => this.(nikkei45 := value)
    }
  }

  /** Two records agree when they agree on every id. */
  lemma EnabledMapExt(a: EnabledMap, b: EnabledMap)
    requires forall id: RuleId :: a.Get(id) == b.Get(id)
    ensures a == b
  {
    assert a.Get(VIX_25) == b.Get(VIX_25) && a.Get(VIX_40) == b.Get(VIX_40);
    assert a.Get(NIKKEI_30) == b.Get(NIKKEI_30) && a.Get(NIKKEI_45) == b.Get(NIKKEI_45);
  }

  const InitialEnabled: EnabledMap := EnabledMap(true, true, true, true)

  /** The page starts with every rule switched on. */
  lemma InitialEnablesAll()
    ensures forall id: RuleId :: InitialEnabled.Get(id)
  {
  }

  /** handleToggleRule's updater: the given rule flips, every other one
      keeps its value. */
  function Toggle(m: EnabledMap, id: RuleId): (r: EnabledMap)
    ensures r.Get(id) == !m.Get(id)
    ensures forall other: RuleId :: other != id ==> r.Get(other) == m.Get(other)
  {
    m.Set(id, !m.Get(id))
  }

  /** Toggling the same rule twice gives back the map. */
  lemma ToggleTwice(m: EnabledMap, id: RuleId)
    ensures Toggle(Toggle(m, id), id) == m
  {
    EnabledMapExt(Toggle(Toggle(m, id), id), m);
  }

  /** The map with every rule set to value. */
  function AllSetTo(value: bool): (r: EnabledMap)
    ensures forall id: RuleId :: r.Get(id) == value
  {
    EnabledMap(value, value, value, value)
  }

  /** The updater of setAllRules: a copy of prev in which every rule of the
      catalog is set to value. The result does not depend on prev, so
      applying it twice is the same as applying it once. */
  method SetAll(prev: EnabledMap, value: bool) returns (next: EnabledMap)
    ensures next == AllSetTo(value)
  {
    next := prev;
    for i := 0 to |RuleDefs|
      invariant forall k :: 0 <= k < i ==> next.Get(RuleDefs[k].id) == value
    {
      next := next.Set(RuleDefs[i].id, value);
    }
    forall id: RuleId
      ensures next.Get(id) == value
    {
      assert next.Get(RuleDefs[Rank(id)].id) == value;
    }
    EnabledMapExt(next, AllSetTo(value));
  }

  /** Object.values(enabledMap).some(v => v). */
  predicate AnyEnabled(m: EnabledMap)
  {
    exists id: RuleId :: m.Get(id)
  }

  // ---------------------------------------------------------------------
  // String.prototype.trim

  /** The characters String.prototype.trim removes: ECMAScript WhiteSpace
      (tab, vertical tab, form feed, the byte order mark and the space
      separators) and LineTerminator. */
  predicate IsJsSpace(c: char): (b: bool)
    ensures c == ' ' || c == '\t' || c == '\n' || c == '\r' ==> b
    ensures 'a' <= c <= 'z' || 'A' <= c <= 'Z' || '0' <= c <= '9' || c == '@' || c == '.' || c == '-' || c == '_' ==> !b
  {
    c == '\t' || c == '\n' || c == '\U{000B}' || c == '\U{000C}' || c == '\r' || c == ' '
    || c == '\U{00A0}' || c == '\U{1680}' || ('\U{2000}' <= c <= '\U{200A}')
    || c == '\U{2028}' || c == '\U{2029}' || c == '\U{202F}' || c == '\U{205F}'
    || c == '\U{3000}' || c == '\U{FEFF}'
  }

  function TrimStart(s: string): (r: string)
    ensures |r| <= |s| && r == s[|s| - |r|..]
    ensures forall i :: 0 <= i < |s| - |r| ==> IsJsSpace(s[i])
    ensures r == [] || !IsJsSpace(r[0])
  {
    if s != [] && IsJsSpace(s[0]) then TrimStart(s[1..]) else s
  }

  function TrimEnd(s: string): (r: string)
    ensures |r| <= |s| && r == s[..|r|]
    ensures forall i :: |r| <= i < |s| ==> IsJsSpace(s[i])
    ensures r == [] || !IsJsSpace(r[|r| - 1])
  {
    if s != [] && IsJsSpace(s[|s| - 1]) then TrimEnd(s[..|s| - 1]) else s
  }

  /** email.trim(). */
  function Trim(s: string): (r: string)
  {
    TrimEnd(TrimStart(s))
  }

  /** The trimmed string is the slice of s left after removing white space
      at both ends. */
  lemma TrimSlice(s: string)
    ensures var r := Trim(s);
            var i := |s| - |TrimStart(s)|;
            0 <= i <= i + |r| <= |s| && r == s[i..i + |r|]
            && (forall k :: 0 <= k < i ==> IsJsSpace(s[k]))
            && (forall k :: i + |r| <= k < |s| ==> IsJsSpace(s[k]))
  {
    var t := TrimStart(s);
    var r := TrimEnd(t);
    var i := |s| - |t|;
    assert t == s[i..];
    assert r == t[..|r|];
    assert s[i..][..|r|] == s[i..i + |r|];
    forall k | i + |r| <= k < |s|
      ensures IsJsSpace(s[k])
    {
      assert s[k] == t[k - i];
    }
  }

  /** The trimmed string neither starts nor ends with white space. */
  lemma TrimEnds(s: string)
    ensures Trim(s) != [] ==> !IsJsSpace(Trim(s)[0]) && !IsJsSpace(Trim(s)[|Trim(s)| - 1])
  {
    var t := TrimStart(s);
    var r := TrimEnd(t);
    if r != [] {
      assert r[0] == t[0];
    }
  }

  /** The trimmed string is empty exactly when s is all white space. */
  lemma TrimEmpty(s: string)
    ensures Trim(s) == [] <==> forall k :: 0 <= k < |s| ==> IsJsSpace(s[k])
  {
    var t := TrimStart(s);
    if t != [] {
      assert t[0] == s[|s| - |t|];
      assert IsJsSpace(t[0]) ==> TrimEnd(t) != [];
    }
  }

  // ---------------------------------------------------------------------
  // The rows of alert_rules and the save payload

  /** One row of alert_rules; user_id is always null here. */
  datatype AlertRow = AlertRow(userId: Option<string>, email: string, symbol: SymbolCode, direction: Direction,
                               threshold: int, severity: Severity, enabled: bool)

  /** The row the payload holds for one enabled rule. Within the catalog,
      the symbol and threshold of a row identify the rule it came from. */
  function ToRow(rule: RuleDef, email: string): (r: AlertRow)
    ensures r.enabled && r.userId == None && r.email == email
    ensures r.symbol == rule.symbol && r.direction == rule.direction
    ensures r.threshold == rule.threshold && r.severity == rule.severity
    ensures rule in RuleDefs ==>
      forall k :: 0 <= k < |RuleDefs| && RuleDefs[k].symbol == r.symbol && RuleDefs[k].threshold == r.threshold
        ==> RuleDefs[k] == rule
  {
    AlertRow(None, email, rule.symbol, rule.direction, rule.threshold, rule.severity, true)
  }

  /** The rules of defs switched on in m, in the order of defs. */
  function EnabledRules(defs: seq<RuleDef>, m: EnabledMap): (r: seq<RuleDef>)
    ensures forall x :: x in r <==> x in defs && m.Get(x.id)
    ensures |r| <= |defs|
  {
    if defs == [] then [] else (if m.Get(defs[0].id) then [defs[0]] else []) + EnabledRules(defs[1..], m)
  }

  predicate RanksAscending(defs: seq<RuleDef>)
  {
    forall i, j :: 0 <= i < j < |defs| ==> Rank(defs[i].id) < Rank(defs[j].id)
  }

  /** Filtering keeps the catalog order. */
  lemma {:induction false} EnabledRulesAscending(defs: seq<RuleDef>, m: EnabledMap)
    requires RanksAscending(defs)
    ensures RanksAscending(EnabledRules(defs, m))
  {
    if defs != [] {
      EnabledRulesAscending(defs[1..], m);
      var rest := EnabledRules(defs[1..], m);
      forall x | x in rest
        ensures Rank(defs[0].id) < Rank(x.id)
      {
        var k :| 0 <= k < |defs[1..]| && defs[1..][k] == x;
        assert defs[k + 1] == x;
      }
    }
  }

  /** The rows handleSave inserts: one per enabled rule, in catalog order,
      with the rule's fields, the trimmed e-mail, enabled set and no user. */
  function Payload(m: EnabledMap, email: string): (p: seq<AlertRow>)
    ensures |p| == |EnabledRules(RuleDefs, m)|
    ensures forall k :: 0 <= k < |p| ==> p[k].email == email && p[k].enabled && p[k].userId == None
  {
    var rules := EnabledRules(RuleDefs, m);
    seq(|rules|, k requires 0 <= k < |rules| => ToRow(rules[k], email))
  }

  /** The payload holds the row of rule id exactly when id is switched on. */
  lemma PayloadHasRule(m: EnabledMap, email: string, id: RuleId)
    ensures ToRow(RuleDefs[Rank(id)], email) in Payload(m, email) <==> m.Get(id)
  {
    var rules := EnabledRules(RuleDefs, m);
    var p := Payload(m, email);
    var rule := RuleDefs[Rank(id)];
    if m.Get(id) {
      assert rule in RuleDefs;
      var k :| 0 <= k < |rules| && rules[k] == rule;
      assert p[k] == ToRow(rule, email);
    }
    if ToRow(rule, email) in p {
      var k :| 0 <= k < |p| && p[k] == ToRow(rule, email);
      assert rules[k] in RuleDefs;
      assert rules[k] == rule;
    }
  }

  /** Rows of the payload follow the order of their rules in the catalog. */
  lemma PayloadOrder(m: EnabledMap, email: string, i: nat, j: nat)
    requires i < j < |Payload(m, email)|
    ensures exists a, b :: 0 <= a < b < |RuleDefs| && Payload(m, email)[i] == ToRow(RuleDefs[a], email)
                           && Payload(m, email)[j] == ToRow(RuleDefs[b], email)
  {
    var rules := EnabledRules(RuleDefs, m);
    CatalogFacts();
    EnabledRulesAscending(RuleDefs, m);
    assert rules[i] in RuleDefs && rules[j] in RuleDefs;
    var a, b := Rank(rules[i].id), Rank(rules[j].id);
    assert RuleDefs[a] == rules[i] && RuleDefs[b] == rules[j];
  }

  /** Something is inserted exactly when some rule is switched on. */
  lemma PayloadEmpty(m: EnabledMap, email: string)
    ensures Payload(m, email) == [] <==> !AnyEnabled(m)
  {
    var rules := EnabledRules(RuleDefs, m);
    if rules != [] {
      assert rules[0] in rules;
      assert m.Get(rules[0].id);
    }
    if AnyEnabled(m) {
      var id :| m.Get(id);
      PayloadHasRule(m, email, id);
    }
  }

  /** The rows of one e-mail address, in table order. */
  function RowsFor(rows: seq<AlertRow>, email: string): (r: seq<AlertRow>)
    ensures forall x :: x in r <==> x in rows && x.email == email
  {
    if rows == [] then []
    else (if rows[0].email == email then [rows[0]] else []) + RowsFor(rows[1..], email)
  }

  /** delete().eq('email', email): the table without the rows of email. */
  function WithoutEmail(rows: seq<AlertRow>, email: string): (r: seq<AlertRow>)
    ensures forall x :: x in r <==> x in rows && x.email != email
  {
    if rows == [] then []
    else (if rows[0].email != email then [rows[0]] else []) + WithoutEmail(rows[1..], email)
  }

  lemma {:induction false} RowsForAppend(a: seq<AlertRow>, b: seq<AlertRow>, email: string)
    ensures RowsFor(a + b, email) == RowsFor(a, email) + RowsFor(b, email)
  {
    if a != [] {
      assert (a + b)[1..] == a[1..] + b;
      RowsForAppend(a[1..], b, email);
    } else {
      assert a + b == b;
    }
  }

  /** After the delete, email has no rows and every other address keeps all
      of its rows in order. */
  lemma {:induction false} RowsForWithout(rows: seq<AlertRow>, email: string, other: string)
    ensures RowsFor(WithoutEmail(rows, email), other) == if other == email then [] else RowsFor(rows, other)
  {
    if rows != [] {
      RowsForWithout(rows[1..], email, other);
      var head := if rows[0].email != email then [rows[0]] else [];
      RowsForAppend(head, WithoutEmail(rows[1..], email), other);
    }
  }

  /** A payload built for email holds only rows of email. */
  lemma {:induction false} RowsForOwn(p: seq<AlertRow>, email: string, other: string)
    requires forall k :: 0 <= k < |p| ==> p[k].email == email
    ensures RowsFor(p, other) == if other == email then p else []
  {
    if p != [] {
      RowsForOwn(p[1..], email, other);
      if other == email {
        assert p == [p[0]] + p[1..];
      }
    }
  }

  /** Deleting the rows of email and then appending a payload for email
      replaces exactly the rows of email with the payload. */
  lemma ReplaceRowsFor(rows: seq<AlertRow>, p: seq<AlertRow>, email: string, other: string)
    requires forall k :: 0 <= k < |p| ==> p[k].email == email
    ensures RowsFor(WithoutEmail(rows, email) + p, other) == if other == email then p else RowsFor(rows, other)
  {
    RowsForAppend(WithoutEmail(rows, email), p, other);
    RowsForWithout(rows, email, other);
    RowsForOwn(p, email, other);
  }

  // ---------------------------------------------------------------------
  // The table and the page

  /** A request the page sends to alert_rules. */
  datatype Request = Delete(email: string) | Insert(payload: seq<AlertRow>)

  /** Whether the store accepted a request, answered with an error, or the
      awaited call threw instead of answering. */
  datatype Reply = Accepted | Rejected | Thrown

  /** The message the page shows after a save. */
  datatype Message = EmailRequired | DeleteFailed | AllCleared | InsertFailed | Saved

  /** The alert_rules table as the page sees it: its rows and the requests
      sent to it. A request that is rejected or throws leaves the rows as
      they were. */
  class AlertTable {
    var rows: seq<AlertRow>
    var requests: seq<Request>

    constructor (initial: seq<AlertRow>)
      ensures rows == initial && requests == []
    {
      rows := initial;
      requests := [];
    }

    method DeleteByEmail(email: string, reply: Reply) returns (failed: bool)
      modifies this
      ensures failed <==> reply != Accepted
      ensures requests == old(requests) + [Delete(email)]
      ensures rows == if failed then old(rows) else WithoutEmail(old(rows), email)
    {
      requests := requests + [Delete(email)];
      failed := reply != Accepted;
      if !failed {
        rows := WithoutEmail(rows, email);
      }
    }

    method InsertRows(payload: seq<AlertRow>, reply: Reply) returns (failed: bool)
      modifies this
      ensures failed <==> reply != Accepted
      ensures requests == old(requests) + [Insert(payload)]
      ensures rows == if failed then old(rows) else old(rows) + payload
    {
      requests := requests + [Insert(payload)];
      failed := reply != Accepted;
      if !failed {
        rows := rows + payload;
      }
    }
  }

  // ---------------------------------------------------------------------
  // What a save does to the table

  /** The message handleSave ends with, for a non-empty trimmed e-mail;
      None when a request threw, since the message was cleared at the start
      and no later setMessage runs. */
  function SaveMessage(m: EnabledMap, deleteReply: Reply, insertReply: Reply): (r: Option<Message>)
  {
    if deleteReply == Thrown then None
    else if deleteReply == Rejected then Some(DeleteFailed)
    else if !AnyEnabled(m) then Some(AllCleared)
    else if insertReply == Accepted then Some(Saved)
    else if insertReply == Rejected then Some(InsertFailed)
    else None
  }

  /** The replies the requests of SaveRequests receive, in order. */
  function SaveRequestReplies(m: EnabledMap, email: string, deleteReply: Reply, insertReply: Reply): (r: seq<Reply>)
    ensures |r| == |SaveRequests(m, email, deleteReply)|
  {
    [deleteReply] + if deleteReply == Accepted && AnyEnabled(m) then [insertReply] else []
  }

  /** The requests handleSave sends for a non-empty trimmed e-mail: the
      delete, then the insert only when the delete succeeded and some rule
      is switched on. */
  function SaveRequests(m: EnabledMap, email: string, deleteReply: Reply): (r: seq<Request>)
  {
    [Delete(email)] + if deleteReply == Accepted && AnyEnabled(m) then [Insert(Payload(m, email))] else []
  }

  /** The table after handleSave, for a non-empty trimmed e-mail. */
  function RowsAfterSave(rows: seq<AlertRow>, m: EnabledMap, email: string, deleteReply: Reply, insertReply: Reply): (r: seq<AlertRow>)
  {
    if deleteReply != Accepted then rows
    else WithoutEmail(rows, email) + if AnyEnabled(m) && insertReply == Accepted then Payload(m, email) else []
  }

  /** A save whose requests all succeed replaces the rows of the address
      with the payload, one row per enabled rule (none when every rule is
      off), and leaves the rows of every other address as they were. */
  lemma SaveReplacesRows(rows: seq<AlertRow>, m: EnabledMap, email: string, insertReply: Reply)
    requires insertReply == Accepted || !AnyEnabled(m)
    ensures forall other :: RowsFor(RowsAfterSave(rows, m, email, Accepted, insertReply), other)
                            == if other == email then Payload(m, email) else RowsFor(rows, other)
  {
    var p := Payload(m, email);
    PayloadEmpty(m, email);
    assert RowsAfterSave(rows, m, email, Accepted, insertReply) == WithoutEmail(rows, email) + p;
    forall other
      ensures RowsFor(WithoutEmail(rows, email) + p, other) == if other == email then p else RowsFor(rows, other)
    {
      ReplaceRowsFor(rows, p, email, other);
    }
  }

  /** A failed delete changes no row and is never followed by an insert. */
  lemma SaveDeleteFailure(rows: seq<AlertRow>, m: EnabledMap, email: string, insertReply: Reply)
    ensures RowsAfterSave(rows, m, email, Rejected, insertReply) == rows
    ensures forall r :: r in SaveRequests(m, email, Rejected) ==> r.Delete?
    ensures SaveMessage(m, Rejected, insertReply) == Some(DeleteFailed)
  {
  }

  /** A save ends without a message exactly when a request it sent threw. */
  lemma SaveMessageNone(m: EnabledMap, email: string, deleteReply: Reply, insertReply: Reply)
    ensures SaveMessage(m, deleteReply, insertReply) == None
            <==> Thrown in SaveRequestReplies(m, email, deleteReply, insertReply)
  {
  }

  /** A request that throws ends the save: nothing is sent after it, the
      rows are those before it, and no message is set. */
  lemma SaveThrows(rows: seq<AlertRow>, m: EnabledMap, email: string, deleteReply: Reply, insertReply: Reply)
    requires deleteReply == Thrown || (deleteReply == Accepted && AnyEnabled(m) && insertReply == Thrown)
    ensures SaveMessage(m, deleteReply, insertReply) == None
    ensures SaveRequests(m, email, deleteReply)
            == if deleteReply == Thrown then [Delete(email)] else [Delete(email), Insert(Payload(m, email))]
    ensures RowsAfterSave(rows, m, email, deleteReply, insertReply)
            == if deleteReply == Thrown then rows else WithoutEmail(rows, email)
  {
  }

  /** With every rule off nothing is inserted. */
  lemma SaveNothingEnabled(m: EnabledMap, email: string, deleteReply: Reply)
    requires !AnyEnabled(m)
    ensures SaveRequests(m, email, deleteReply) == [Delete(email)]
  {
  }

  /** A failed insert after a successful delete leaves the address with no
      rows at all: the delete is not undone. */
  lemma SaveInsertFailure(rows: seq<AlertRow>, m: EnabledMap, email: string, other: string)
    ensures RowsFor(RowsAfterSave(rows, m, email, Accepted, Rejected), other)
            == if other == email then [] else RowsFor(rows, other)
  {
    assert RowsAfterSave(rows, m, email, Accepted, Rejected) == WithoutEmail(rows, email) + [] == WithoutEmail(rows, email);
    RowsForWithout(rows, email, other);
  }

  /** The store part of handleSave, for a non-empty trimmed e-mail: delete
      the address's rows, then insert the payload when some rule is on. */
  method SaveRules(table: AlertTable, m: EnabledMap, email: string, deleteReply: Reply, insertReply: Reply)
    returns (message: Option<Message>)
    modifies table
    ensures message == SaveMessage(m, deleteReply, insertReply)
    ensures table.rows == RowsAfterSave(old(table.rows), m, email, deleteReply, insertReply)
    ensures table.requests == old(table.requests) + SaveRequests(m, email, deleteReply)
  {
    var deleteFailed := table.DeleteByEmail(email, deleteReply);
    if deleteFailed {
      message := if deleteReply == Thrown then None else Some(DeleteFailed);
      return;
    }
    if !AnyEnabled(m) {
      message := Some(AllCleared);
      assert table.rows == table.rows + [];
      return;
    }
    var payload := Payload(m, email);
    var insertFailed := table.InsertRows(payload, insertReply);
    message := if !insertFailed then Some(Saved) else if insertReply == Thrown then None else Some(InsertFailed);
    if insertFailed {
      assert table.rows == table.rows + [];
    }
  }

  /** The state of the alerts page. */
  class AlertsPage {
    var enabledMap: EnabledMap
    var email: string
    var saving: bool
    var message: Option<Message>
    const table: AlertTable

    constructor (table: AlertTable)
      ensures enabledMap == InitialEnabled && email == [] && !saving && message == None
      ensures this.table == table
    {
      enabledMap := InitialEnabled;
      email := [];
      saving := false;
      message := None;
      this.table := table;
    }

    /** handleToggleRule. */
    method ToggleRule(id: RuleId)
      modifies this
      ensures enabledMap == Toggle(old(enabledMap), id)
      ensures email == old(email) && saving == old(saving) && message == old(message)
    {
      enabledMap := Toggle(enabledMap, id);
    }

    /** setAllRules. */
    method SetAllRules(value: bool)
      modifies this
      ensures enabledMap == AllSetTo(value)
      ensures email == old(email) && saving == old(saving) && message == old(message)
    {
      enabledMap := SetAll(enabledMap, value);
    }

    /** The e-mail input's onChange. */
    method SetEmail(value: string)
      modifies this
      ensures email == value
      ensures enabledMap == old(enabledMap) && saving == old(saving) && message == old(message)
    {
      email := value;
    }

    /** handleSave, with the store's answers to the delete and the insert
        given as replies. A reply of Thrown is the awaited call throwing: the
        finally block still clears saving, and no message is set. */
    method Save(deleteReply: Reply, insertReply: Reply)
      modifies this, table
      ensures enabledMap == old(enabledMap) && email == old(email)
      ensures saving == (old(saving) && Trim(old(email)) == [])
      ensures Trim(old(email)) == [] ==>
                message == Some(EmailRequired)
                && table.rows == old(table.rows) && table.requests == old(table.requests)
      ensures var e := Trim(old(email));
              e != [] ==>
                message == SaveMessage(old(enabledMap), deleteReply, insertReply)
                && table.rows == RowsAfterSave(old(table.rows), old(enabledMap), e, deleteReply, insertReply)
                && table.requests == old(table.requests) + SaveRequests(old(enabledMap), e, deleteReply)
    {
      message := None;
      var trimmed := Trim(email);
      if trimmed == [] {
        message := Some(EmailRequired);
        return;
      }
      saving := true;
      var outcome := SaveRules(table, enabledMap, trimmed, deleteReply, insertReply);
      message := outcome;
      saving := false;
    }
  }
}
