/** The request transformation rules of a route, applied in their order. */
module TransformRules {
  import opened NestedValue
  import opened Options
  import opened StableSort
  import Text

  datatype Phase = Request | Response

  datatype Condition = Always | HeaderIs(key: string, value: string) | QueryIs(key: string, value: string)

  /** A missing value in a rule's configuration makes it do nothing. */
  datatype Action =
    | SetHeader(key: string, value: Option<string>)
    | RemoveHeader(key: string)
    | SetQueryParam(key: string, value: Option<string>)
    | RemoveQueryParam(key: string)
    | RewriteBodyJson(path: string, json: Option<Json>)
    | MapStatusCode

  datatype Rule = Rule(phase: Phase, isActive: bool, order: int, condition: Condition, action: Action)

  datatype Message = Message(headers: map<string, string>, query: map<string, string>, body: Json)

  /** `lower` is the lower-casing of header names. */
  predicate Holds(c: Condition, m: Message, lower: string -> string) {
    match c
    case Always => true
    case HeaderIs(key, value) =>
      if key in m.headers && m.headers[key] != "" then m.headers[key] == value
      else lower(key) in m.headers && m.headers[lower(key)] == value
    case QueryIs(key, value) => key in m.query && m.query[key] == value
  }

  function Act(a: Action, m: Message, lower: string -> string): Message {
    match a
    case SetHeader(key, value) => if key != "" && value.Some? then m.(headers := m.headers[key := value.value]) else m
    case RemoveHeader(key) => if key != "" then m.(headers := m.headers - {key} - {lower(key)}) else m
    case SetQueryParam(key, value) => if key != "" && value.Some? then m.(query := m.query[key := value.value]) else m
    case RemoveQueryParam(key) => if key != "" then m.(query := m.query - {key}) else m
    case RewriteBodyJson(path, json) =>
      if m.body.Object? && path != "" && json.Some?
      then m.(body := SetNested(m.body, Text.Split(path, '.'), json.value)) else m
    case MapStatusCode => m
  }

  function ApplyRule(r: Rule, m: Message, lower: string -> string): Message {
    if Holds(r.condition, m, lower) then Act(r.action, m, lower) else m
  }

  function ApplyAll(rules: seq<Rule>, m: Message, lower: string -> string): Message {
    if rules == [] then m else ApplyRule(rules[|rules| - 1], ApplyAll(rules[..|rules| - 1], m, lower), lower)
  }

  function RequestRules(rules: seq<Rule>): seq<Rule> {
    if rules == [] then []
    else
      var last := rules[|rules| - 1];
      RequestRules(rules[..|rules| - 1]) + if last.phase == Request && last.isActive then [last] else []
  }

  function OrderOf(r: Rule): int {
    r.order
  }

  function Schedule(rules: seq<Rule>): seq<Rule> {
    Sort(RequestRules(rules), OrderOf)
  }

  class Outgoing {
    var message: Message

    constructor (m: Message)
      ensures message == m
    {
      message := m;
    }

    method ApplyRequestTransforms(rules: seq<Rule>, lower: string -> string)
      modifies this
      ensures message == ApplyAll(Schedule(rules), old(message), lower)
    {
      var requestRules := Schedule(rules);
      for i := 0 to |requestRules|
        invariant message == ApplyAll(requestRules[..i], old(message), lower)
      {
        var rule := requestRules[i];
        assert requestRules[..i + 1][..i] == requestRules[..i];
        if !Holds(rule.condition, message, lower) { continue; }
        match rule.action
        case SetHeader(key, value) =>
          if key != "" && value.Some? { message := message.(headers := message.headers[key := value.value]); }
        case RemoveHeader(key) =>
          if key != "" { message := message.(headers := message.headers - {key} - {lower(key)}); }
        case SetQueryParam(key, value) =>
          if key != "" && value.Some? { message := message.(query := message.query[key := value.value]); }
        case RemoveQueryParam(key) =>
          if key != "" { message := message.(query := message.query - {key}); }
        case RewriteBodyJson(path, json) =>
          if message.body.Object? && path != "" && json.Some? {
            message := message.(body := SetNested(message.body, Text.Split(path, '.'), json.value));
          }
        case MapStatusCode =>
      }
      assert requestRules[..|requestRules|] == requestRules;
    }
  }

  // ---------------------------------------------------------------------
  // Which rules are applied, and in which order.
  // ---------------------------------------------------------------------

  /** Of two lists of rules the request rules of the first come first; a rule alone is one if it is active. */
  lemma {:induction false} RequestRulesKeepOrder(rules: seq<Rule>, more: seq<Rule>)
    ensures RequestRules(rules + more) == RequestRules(rules) + RequestRules(more)
    decreases |more|
  {
    if more == [] {
      assert rules + more == rules;
    } else {
      var init, last := more[..|more| - 1], more[|more| - 1];
      RequestRulesKeepOrder(rules, init);
      assert (rules + more)[..|rules + more| - 1] == rules + init;
    }
  }

  lemma RequestRuleAlone(r: Rule)
    ensures RequestRules([r]) == if r.phase == Request && r.isActive then [r] else []
  {
    assert [r][..0] == [];
  }

  /**
   * The schedule holds each active request rule as often as the list does, and no other, ascending in
   * `order`; of equal orders those that came first come first.
   */
  lemma ScheduleIsByOrder(rules: seq<Rule>)
    ensures forall r :: multiset(Schedule(rules))[r]
                        == if r.phase == Request && r.isActive then multiset(rules)[r] else 0
    ensures forall i, j | 0 <= i < j < |Schedule(rules)| :: Schedule(rules)[i].order <= Schedule(rules)[j].order
    ensures forall k :: WithKey(Schedule(rules), OrderOf, k)
                        == WithKey(RequestRules(rules), OrderOf, k)
  {
    var requestRules := RequestRules(rules);
    SortPermutes(requestRules, OrderOf);
    SortOrders(requestRules, OrderOf);
    forall r: Rule ensures multiset(requestRules)[r]
                           == if r.phase == Request && r.isActive then multiset(rules)[r] else 0 {
      RequestRulesCount(rules, r);
    }
    forall k ensures WithKey(Schedule(rules), OrderOf, k) == WithKey(requestRules, OrderOf, k) {
      SortIsStable(requestRules, OrderOf, k);
    }
  }

  // ---------------------------------------------------------------------
  // When a rule fires, and what it then does.
  // ---------------------------------------------------------------------

  /** What a header or parameter holds, if there is one. */
  function ValueOf(fields: map<string, string>, name: string): Option<string> {
    if name in fields then Some(fields[name]) else None
  }

  /** What the message holds under a header name: as written if that is not empty, or else in lower case. */
  function HeaderRead(m: Message, key: string, lower: string -> string): Option<string> {
    if ValueOf(m.headers, key) == None || ValueOf(m.headers, key) == Some("") then ValueOf(m.headers, lower(key))
    else ValueOf(m.headers, key)
  }

  /** The condition of the rule names a header or parameter that is missing, or holds another value. */
  predicate Unmet(r: Rule, m: Message, lower: string -> string) {
    || (r.condition.HeaderIs? && HeaderRead(m, r.condition.key, lower) != Some(r.condition.value))
    || (r.condition.QueryIs? && ValueOf(m.query, r.condition.key) != Some(r.condition.value))
  }

  /** Such a rule changes nothing. */
  lemma UnmetRuleChangesNothing(r: Rule, m: Message, lower: string -> string)
    requires Unmet(r, m, lower)
    ensures ApplyRule(r, m, lower) == m
  {
  }

  /**
   * Any other rule sets its header or parameter, or removes it, the header in lower case too, and
   * leaves all other headers and parameters alone; a body rule changes neither.
   */
  lemma MetRuleActs(r: Rule, m: Message, lower: string -> string, name: string)
    requires !Unmet(r, m, lower)
    ensures var after, a := ApplyRule(r, m, lower), r.action;
            && (a.SetHeader? && a.key != "" && a.value.Some? ==> ValueOf(after.headers, a.key) == a.value)
            && (a.RemoveHeader? && a.key != "" ==> a.key !in after.headers && lower(a.key) !in after.headers)
            && (a.SetQueryParam? && a.key != "" && a.value.Some? ==> ValueOf(after.query, a.key) == a.value)
            && (a.RemoveQueryParam? && a.key != "" ==> a.key !in after.query)
    ensures var after, a := ApplyRule(r, m, lower), r.action;
            && (!(a.SetHeader? && name == a.key) && !(a.RemoveHeader? && name in {a.key, lower(a.key)}) ==>
                  ValueOf(after.headers, name) == ValueOf(m.headers, name))
            && (!(a.SetQueryParam? && name == a.key) && !(a.RemoveQueryParam? && name == a.key) ==>
                  ValueOf(after.query, name) == ValueOf(m.query, name))
            && (!a.RewriteBodyJson? ==> after.body == m.body)
  {
  }

  // ---------------------------------------------------------------------
  // The outcome does not depend on the order the rules come in.
  // ---------------------------------------------------------------------

  lemma {:induction false} RequestRulesCount(rules: seq<Rule>, r: Rule)
    ensures multiset(RequestRules(rules))[r] == if r.phase == Request && r.isActive then multiset(rules)[r] else 0
    decreases |rules|
  {
    if rules != [] {
      RequestRulesCount(rules[..|rules| - 1], r);
      CountOfLast(rules, r);
    }
  }

  lemma CountOfLast(rules: seq<Rule>, r: Rule)
    requires rules != []
    ensures multiset(rules)[r] == multiset(rules[..|rules| - 1])[r] + if rules[|rules| - 1] == r then 1 else 0
  {
    assert rules == rules[..|rules| - 1] + [rules[|rules| - 1]];
  }

  /** Rules in any other order, mixed with any inactive or response rules, do the same. */
  lemma ArrivalOrderIsIrrelevant(rules: seq<Rule>, others: seq<Rule>, m: Message, lower: string -> string)
    requires multiset(RequestRules(rules)) == multiset(RequestRules(others))
    requires DistinctKeys(RequestRules(rules), OrderOf)
    ensures ApplyAll(Schedule(rules), m, lower) == ApplyAll(Schedule(others), m, lower)
  {
    SortIgnoresArrival(RequestRules(rules), RequestRules(others), OrderOf);
  }

  lemma PermutedRulesHaveTheSameRequestRules(rules: seq<Rule>, others: seq<Rule>)
    requires multiset(rules) == multiset(others)
    ensures multiset(RequestRules(rules)) == multiset(RequestRules(others))
  {
    forall r: Rule ensures multiset(RequestRules(rules))[r] == multiset(RequestRules(others))[r] {
      RequestRulesCount(rules, r);
      RequestRulesCount(others, r);
    }
  }

  // ---------------------------------------------------------------------
  // What the rules leave behind, by the rules that fire.
  // ---------------------------------------------------------------------

  /** The message that rule `i` meets. */
  function Met(rules: seq<Rule>, i: nat, m: Message, lower: string -> string): Message
    requires i <= |rules|
  {
    ApplyAll(rules[..i], m, lower)
  }

  lemma MetNext(rules: seq<Rule>, i: nat, m: Message, lower: string -> string)
    requires i < |rules|
    ensures Met(rules, i + 1, m, lower) == ApplyRule(rules[i], Met(rules, i, m, lower), lower)
  {
    assert rules[..i + 1][..i] == rules[..i];
  }

  /** The path of the body that a rule, meeting `m`, writes: its condition holds and its configuration is complete. */
  function WrittenPath(r: Rule, m: Message, lower: string -> string): Option<Path> {
    if r.action.RewriteBodyJson? && Holds(r.condition, m, lower) && m.body.Object?
       && r.action.path != "" && r.action.json.Some? && !HasForbidden(Text.Split(r.action.path, '.'))
    then Some(Text.Split(r.action.path, '.')) else None
  }

  /** The rule, meeting `m`, writes the body at `path`, above it or below it. */
  predicate Disturbs(r: Rule, m: Message, lower: string -> string, path: Path) {
    WrittenPath(r, m, lower).Some? && !Incomparable(WrittenPath(r, m, lower).value, path)
  }

  lemma UndisturbedStep(r: Rule, m: Message, lower: string -> string, path: Path)
    requires !Disturbs(r, m, lower, path)
    ensures Get(ApplyRule(r, m, lower).body, path) == Get(m.body, path)
  {
    if WrittenPath(r, m, lower).Some? {
      PutElsewhere(m.body, WrittenPath(r, m, lower).value, path, r.action.json.value);
    }
  }

  /** What rule `from` meets at `path` is there at the end, if no rule from there on disturbs it. */
  lemma {:induction false} ValueSurvives(rules: seq<Rule>, from: nat, end: nat, m: Message, lower: string -> string,
                                         path: Path)
    requires from <= end <= |rules|
    requires forall i | from <= i < end :: !Disturbs(rules[i], Met(rules, i, m, lower), lower, path)
    ensures Get(Met(rules, end, m, lower).body, path) == Get(Met(rules, from, m, lower).body, path)
    decreases end
  {
    if end > from {
      ValueSurvives(rules, from, end - 1, m, lower, path);
      MetNext(rules, end - 1, m, lower);
      UndisturbedStep(rules[end - 1], Met(rules, end - 1, m, lower), lower, path);
    }
  }

  /**
   * After all rules a body path holds what the last rule that wrote it wrote, provided no rule that
   * fired later wrote above or below it; a path that no rule disturbed holds what it held.
   */
  lemma LastWriteWins(rules: seq<Rule>, k: nat, m: Message, lower: string -> string, path: Path)
    requires k < |rules| && WrittenPath(rules[k], Met(rules, k, m, lower), lower) == Some(path)
    requires forall i | k < i < |rules| :: !Disturbs(rules[i], Met(rules, i, m, lower), lower, path)
    ensures Get(ApplyAll(rules, m, lower).body, path) == rules[k].action.json
  {
    MetNext(rules, k, m, lower);
    PutGet(Met(rules, k, m, lower).body, path, rules[k].action.json.value);
    ValueSurvives(rules, k + 1, |rules|, m, lower, path);
    assert rules[..|rules|] == rules;
  }

  lemma UndisturbedBody(rules: seq<Rule>, m: Message, lower: string -> string, path: Path)
    requires forall i | 0 <= i < |rules| :: !Disturbs(rules[i], Met(rules, i, m, lower), lower, path)
    ensures Get(ApplyAll(rules, m, lower).body, path) == Get(m.body, path)
  {
    ValueSurvives(rules, 0, |rules|, m, lower, path);
    assert rules[..|rules|] == rules && rules[..0] == [];
  }

  // ----- Headers and query parameters -----

  /** What a rule, meeting `m`, does to the header `name`: nothing, or set it, or remove it. */
  function HeaderEffect(r: Rule, m: Message, lower: string -> string, name: string): Option<Option<string>> {
    if !Holds(r.condition, m, lower) then None else
    match r.action
    case SetHeader(key, value) => if key != "" && key == name && value.Some? then Some(value) else None
    case RemoveHeader(key) => if key != "" && (key == name || lower(key) == name) then Some(None) else None
    case _ => None
  }

  function QueryEffect(r: Rule, m: Message, lower: string -> string, name: string): Option<Option<string>> {
    if !Holds(r.condition, m, lower) then None else
    match r.action
    case SetQueryParam(key, value) => if key != "" && key == name && value.Some? then Some(value) else None
    case RemoveQueryParam(key) => if key != "" && key == name then Some(None) else None
    case _ => None
  }

  lemma HeaderStep(r: Rule, m: Message, lower: string -> string, name: string)
    ensures var effect := HeaderEffect(r, m, lower, name);
            ValueOf(ApplyRule(r, m, lower).headers, name)
            == if effect.Some? then effect.value else ValueOf(m.headers, name)
  {
  }

  lemma QueryStep(r: Rule, m: Message, lower: string -> string, name: string)
    ensures var effect := QueryEffect(r, m, lower, name);
            ValueOf(ApplyRule(r, m, lower).query, name) == if effect.Some? then effect.value else ValueOf(m.query, name)
  {
  }

  /** The effect of the last rule below `n` that had one, or what was there before. */
  function Decided(rules: seq<Rule>, n: nat, m: Message, lower: string -> string,
                   effect: (Rule, Message) -> Option<Option<string>>, before: Option<string>): Option<string>
    requires n <= |rules|
  {
    if n == 0 then before else
    var last := effect(rules[n - 1], Met(rules, n - 1, m, lower));
    if last.Some? then last.value else Decided(rules, n - 1, m, lower, effect, before)
  }

  /**
   * After any rules a header is what the last rule that fired on it made of it, set or removed,
   * lower-cased names included; untouched, it is what it was.
   */
  lemma {:induction false} LastHeaderRuleDecides(rules: seq<Rule>, n: nat, m: Message, lower: string -> string,
                                                 name: string)
    requires n <= |rules|
    ensures ValueOf(Met(rules, n, m, lower).headers, name)
            == Decided(rules, n, m, lower, (r, met) => HeaderEffect(r, met, lower, name), ValueOf(m.headers, name))
    decreases n
  {
    if n == 0 {
      assert rules[..0] == [];
    } else {
      LastHeaderRuleDecides(rules, n - 1, m, lower, name);
      MetNext(rules, n - 1, m, lower);
      HeaderStep(rules[n - 1], Met(rules, n - 1, m, lower), lower, name);
    }
  }

  lemma {:induction false} LastQueryRuleDecides(rules: seq<Rule>, n: nat, m: Message, lower: string -> string,
                                                name: string)
    requires n <= |rules|
    ensures ValueOf(Met(rules, n, m, lower).query, name)
            == Decided(rules, n, m, lower, (r, met) => QueryEffect(r, met, lower, name), ValueOf(m.query, name))
    decreases n
  {
    if n == 0 {
      assert rules[..0] == [];
    } else {
      LastQueryRuleDecides(rules, n - 1, m, lower, name);
      MetNext(rules, n - 1, m, lower);
      QueryStep(rules[n - 1], Met(rules, n - 1, m, lower), lower, name);
    }
  }

  // ----- By the order of the rules -----

  /** Rule `k` comes last, by its order and then by its place, of the rules of the schedule that fired. */
  predicate HasGreatestOrder(sched: seq<Rule>, k: nat, fired: set<nat>) {
    && k < |sched| && k in fired
    && forall i | i in fired && i < |sched| ::
         sched[i].order < sched[k].order || (sched[i].order == sched[k].order && i <= k)
  }

  lemma GreatestIsLast(rules: seq<Rule>, k: nat, fired: set<nat>)
    requires HasGreatestOrder(Schedule(rules), k, fired)
    ensures forall i | k < i < |Schedule(rules)| :: i !in fired
  {
    ScheduleIsByOrder(rules);
  }

  lemma {:induction false} LastFired(fired: set<nat>, n: nat) returns (k: nat)
    requires fired != {} && forall i | i in fired :: i < n
    ensures k in fired && forall i | i in fired :: i <= k
    decreases n
  {
    if n > 0 && n - 1 in fired {
      k := n - 1;
    } else {
      var i :| i in fired;
      k := LastFired(fired, n - 1);
    }
  }

  /** If any rule fired, one has the greatest order. */
  lemma OneRuleDecides(rules: seq<Rule>, fired: set<nat>) returns (k: nat)
    requires fired != {} && forall i | i in fired :: i < |Schedule(rules)|
    ensures HasGreatestOrder(Schedule(rules), k, fired)
  {
    k := LastFired(fired, |Schedule(rules)|);
    ScheduleIsByOrder(rules);
  }

  lemma {:induction false} DecidedByLast(rules: seq<Rule>, n: nat, k: nat, m: Message, lower: string -> string,
                                         effect: (Rule, Message) -> Option<Option<string>>, before: Option<string>)
    requires k < n <= |rules| && effect(rules[k], Met(rules, k, m, lower)).Some?
    requires forall i | k < i < n :: effect(rules[i], Met(rules, i, m, lower)).None?
    ensures Decided(rules, n, m, lower, effect, before) == effect(rules[k], Met(rules, k, m, lower)).value
    decreases n
  {
    if k < n - 1 { DecidedByLast(rules, n - 1, k, m, lower, effect, before); }
  }

  /** The rules of the schedule that set or removed a header. */
  function FiredOnHeader(sched: seq<Rule>, m: Message, lower: string -> string, name: string): set<nat> {
    set i: nat | i < |sched| && HeaderEffect(sched[i], Met(sched, i, m, lower), lower, name).Some?
  }

  function FiredOnQuery(sched: seq<Rule>, m: Message, lower: string -> string, name: string): set<nat> {
    set i: nat | i < |sched| && QueryEffect(sched[i], Met(sched, i, m, lower), lower, name).Some?
  }

  /** The rules of the schedule that wrote a body path, or above or below it. */
  function FiredOnBody(sched: seq<Rule>, m: Message, lower: string -> string, path: Path): set<nat> {
    set i: nat | i < |sched| && Disturbs(sched[i], Met(sched, i, m, lower), lower, path)
  }

  /**
   * After the transforms, of the rules that fired on a header the one with the greatest order decides
   * what it is, and of those with equal orders the last to come.
   */
  lemma GreatestOrderDecidesHeader(rules: seq<Rule>, k: nat, m: Message, lower: string -> string, name: string)
    requires HasGreatestOrder(Schedule(rules), k, FiredOnHeader(Schedule(rules), m, lower, name))
    ensures var sched := Schedule(rules);
            ValueOf(ApplyAll(sched, m, lower).headers, name)
            == HeaderEffect(sched[k], Met(sched, k, m, lower), lower, name).value
  {
    var sched := Schedule(rules);
    GreatestIsLast(rules, k, FiredOnHeader(sched, m, lower, name));
    LastHeaderRuleDecides(sched, |sched|, m, lower, name);
    DecidedByLast(sched, |sched|, k, m, lower, (r, met) => HeaderEffect(r, met, lower, name), ValueOf(m.headers, name));
    assert sched[..|sched|] == sched;
  }

  lemma GreatestOrderDecidesQuery(rules: seq<Rule>, k: nat, m: Message, lower: string -> string, name: string)
    requires HasGreatestOrder(Schedule(rules), k, FiredOnQuery(Schedule(rules), m, lower, name))
    ensures var sched := Schedule(rules);
            ValueOf(ApplyAll(sched, m, lower).query, name)
            == QueryEffect(sched[k], Met(sched, k, m, lower), lower, name).value
  {
    var sched := Schedule(rules);
    GreatestIsLast(rules, k, FiredOnQuery(sched, m, lower, name));
    LastQueryRuleDecides(sched, |sched|, m, lower, name);
    DecidedByLast(sched, |sched|, k, m, lower, (r, met) => QueryEffect(r, met, lower, name), ValueOf(m.query, name));
    assert sched[..|sched|] == sched;
  }

  /**
   * A body path holds what the rule with the greatest order, of those that wrote at, above or below it,
   * wrote there.
   */
  lemma GreatestOrderDecidesBody(rules: seq<Rule>, k: nat, m: Message, lower: string -> string, path: Path)
    requires HasGreatestOrder(Schedule(rules), k, FiredOnBody(Schedule(rules), m, lower, path))
    requires var sched := Schedule(rules); WrittenPath(sched[k], Met(sched, k, m, lower), lower) == Some(path)
    ensures var sched := Schedule(rules); Get(ApplyAll(sched, m, lower).body, path) == sched[k].action.json
  {
    var sched := Schedule(rules);
    GreatestIsLast(rules, k, FiredOnBody(sched, m, lower, path));
    LastWriteWins(sched, k, m, lower, path);
  }
}
