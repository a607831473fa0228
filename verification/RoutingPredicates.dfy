/**
 Predicates of a routing config: what the parser checks and what evaluating them does (scripts/cbz_routing.py). A config
 the parser accepts evaluates to an answer on every context, under conditions the parser does not check.
 */
module RoutingPredicates {
  import opened Outcomes

  /** The operators of a matcher with their operands; `Unknown` is any other key. */
  datatype Operator =
    | Equals(text: string)
    | In(items: seq<string>)
    | InList(name: string)
    | Glob(pattern: string)
    | GlobInList(name: string)
    | GlobTokensInList(name: string)
    | DomainInList(name: string)
    | ContainsAny(items: seq<string>)
    | Unknown(key: string)

  /** A JSON value where a predicate is expected; `Nodes` is an array and `Scalar` anything else that is neither a string
      nor an object. */
  datatype Node =
    | Ref(name: string)
    | Object(any: Option<Node>, all: Option<Node>, negated: Option<Node>, field: Option<string>, operators: seq<Operator>)
    | Nodes(items: seq<Node>)
    | Scalar

  /** What a matching rule's evidence is worth; `Strong` when the rule declares nothing. */
  datatype Strength = Weak | Strong

  datatype Rule = Rule(condition: Node, destination: string, strength: Strength)

  datatype Config = Config(
    lists: map<string, seq<string>>,
    signals: map<string, Node>,
    rules: seq<Rule>,
    default: string)

  /** Text functions of the library and of Unicode. `key` is the context key of a field name. */
  datatype Text = Text(
    key: string -> string,
    fold: string -> string,
    glob: (string, string) -> bool,
    contains: (string, string) -> bool,
    tokens: string -> seq<string>,
    domain: string -> string)

  type Context = map<string, string>

  /** `Refused` is a RoutingConfigError, `Diverged` more calls than the fuel allows. */
  datatype Verdict = Holds(value: bool) | Refused | Diverged

  // ------------------------------------------------------------ evaluation

  /** `_lookup`: an empty value is absent. */
  function Lookup(t: Text, context: Context, field: string): Option<string> {
    if t.key(field) in context && context[t.key(field)] != "" then Some(context[t.key(field)]) else None
  }

  function ListName(op: Operator): Option<string> {
    match op
    case InList(n) => Some(n)
    case GlobInList(n) => Some(n)
    case GlobTokensInList(n) => Some(n)
    case DomainInList(n) => Some(n)
    case _ => None
  }

  predicate Satisfies(t: Text, value: string, op: Operator, named: seq<string>) {
    match op
    case Equals(s) => t.fold(value) == t.fold(s)
    case In(items) => exists x | x in items :: t.fold(value) == t.fold(x)
    case InList(_) => exists x | x in named :: t.fold(value) == t.fold(x)
    case Glob(p) => t.glob(t.fold(value), t.fold(p))
    case GlobInList(_) => exists p | p in named :: t.glob(t.fold(value), t.fold(p))
    case GlobTokensInList(_) =>
      exists token, p | token in t.tokens(t.fold(value)) && p in named :: token != "" && t.glob(token, t.fold(p))
    case DomainInList(_) => exists x | x in named :: t.domain(value) == t.domain(x)
    case ContainsAny(items) => exists x | x in items :: t.contains(t.fold(x), t.fold(value))
    case Unknown(_) => false
  }

  /** `_evaluate_matcher` */
  function EvaluateMatcher(t: Text, cfg: Config, context: Context, field: Option<string>, ops: seq<Operator>): Verdict {
    if field.None? || field.value == "" then Refused
    else if |ops| != 1 || ops[0].Unknown? then Refused
    else if Lookup(t, context, field.value).None? then Holds(false)
    else
      var value, name := Lookup(t, context, field.value).value, ListName(ops[0]);
      if name.Some? && name.value !in cfg.lists then Refused
      else Holds(Satisfies(t, value, ops[0], if name.Some? then cfg.lists[name.value] else []))
  }

  function Not(v: Verdict): Verdict {
    if v.Holds? then Holds(!v.value) else v
  }

  /** `_evaluate` */
  function Evaluate(t: Text, cfg: Config, context: Context, node: Node, fuel: nat): Verdict
    decreases fuel, 0
  {
    if fuel == 0 then Diverged else
    match node
    case Ref(n) => if n in cfg.signals then Evaluate(t, cfg, context, cfg.signals[n], fuel - 1) else Refused
    case Object(any, all, negated, field, ops) =>
      if any.Some? then EvaluateChildren(t, cfg, context, any.value, true, fuel - 1)
      else if all.Some? then EvaluateChildren(t, cfg, context, all.value, false, fuel - 1)
      else if negated.Some? then Not(Evaluate(t, cfg, context, negated.value, fuel - 1))
      else EvaluateMatcher(t, cfg, context, field, ops)
    case _ => Refused
  }

  function EvaluateChildren(t: Text, cfg: Config, context: Context, children: Node, stopAt: bool, fuel: nat): Verdict
    decreases fuel, 2
  {
    if !children.Nodes? || children.items == [] then Refused
    else EvaluateEach(t, cfg, context, children.items, stopAt, fuel)
  }

  /** Children in order, up to the first whose answer is `stopAt`. */
  function EvaluateEach(t: Text, cfg: Config, context: Context, items: seq<Node>, stopAt: bool, fuel: nat): Verdict
    decreases fuel, 1, |items|
  {
    if items == [] then Holds(!stopAt) else
    var v := Evaluate(t, cfg, context, items[0], fuel);
    if v == Holds(!stopAt) then EvaluateEach(t, cfg, context, items[1..], stopAt, fuel) else v
  }

  // ------------------------------------------------------------ validation

  datatype Combinator = Any | All | Negation

  /** The order evaluation looks for combinators in. */
  const EVALUATION_ORDER := [Any, All, Negation]

  function Child(node: Node, c: Combinator): Option<Node>
    requires node.Object?
  {
    match c
    case Any => node.any
    case All => node.all
    case Negation => node.negated
  }

  /** The first combinator of `order` the object has. */
  function Chosen(order: seq<Combinator>, node: Node): (c: Option<Combinator>)
    requires node.Object?
    ensures c.Some? ==> Child(node, c.value).Some?
  {
    if order == [] then None
    else if Child(node, order[0]).Some? then Some(order[0])
    else Chosen(order[1..], node)
  }

  predicate ValidMatcher(cfg: Config, field: Option<string>, ops: seq<Operator>) {
    && field.Some?
    && |ops| == 1 && !ops[0].Unknown?
    && ((ops[0].InList? || ops[0].GlobInList? || ops[0].GlobTokensInList?) ==> ops[0].name in cfg.lists)
  }

  /** `_validate_predicate`; `order` is the order its set of combinators happens to be iterated in. */
  predicate Validate(cfg: Config, order: seq<Combinator>, seen: set<string>, node: Node)
    decreases cfg.signals.Keys - seen, node
  {
    match node
    case Ref(n) =>
      n in cfg.signals && n !in seen
      && (assert n in cfg.signals.Keys - seen && n !in cfg.signals.Keys - (seen + {n});
          Validate(cfg, order, seen + {n}, cfg.signals[n]))
    case Object(any, all, negated, field, ops) =>
      (match Chosen(order, node)
       case None => ValidMatcher(cfg, field, ops)
       case Some(Negation) => Validate(cfg, order, seen, negated.value)
       case Some(Any) =>
         any.value.Nodes? && any.value.items != []
         && forall i | 0 <= i < |any.value.items| :: Validate(cfg, order, seen, any.value.items[i])
       case Some(All) =>
         all.value.Nodes? && all.value.items != []
         && forall i | 0 <= i < |all.value.items| :: Validate(cfg, order, seen, all.value.items[i]))
    case _ => false
  }

  /** The predicates of a config `parse` accepts. */
  predicate Parsed(cfg: Config, order: seq<Combinator>) {
    && (forall i | 0 <= i < |cfg.rules| :: Validate(cfg, order, {}, cfg.rules[i].condition))
    && forall s | s in cfg.signals :: Validate(cfg, order, {s}, cfg.signals[s])
  }

  // ------------------------------------------------------------ what the parser does not check

  /** A field name that is not empty, and a defined list for `domain_in_list`. */
  predicate CarefulMatcher(cfg: Config, field: Option<string>, ops: seq<Operator>) {
    && field != Some("")
    && (|ops| == 1 && ops[0].DomainInList? ==> ops[0].name in cfg.lists)
  }

  /** In every object evaluation can reach below `node`, the parser looks at the combinator evaluation uses, and matchers
      are careful. */
  predicate Careful(cfg: Config, order: seq<Combinator>, node: Node) {
    match node
    case Object(any, all, negated, field, ops) =>
      && Chosen(order, node) == Chosen(EVALUATION_ORDER, node)
      && (match Chosen(order, node)
          case None => CarefulMatcher(cfg, field, ops)
          case Some(Any) => Careful(cfg, order, any.value)
          case Some(All) => Careful(cfg, order, all.value)
          case Some(Negation) => Careful(cfg, order, negated.value))
    case Nodes(items) => forall i | 0 <= i < |items| :: Careful(cfg, order, items[i])
    case _ => true
  }

  predicate CarefulConfig(cfg: Config, order: seq<Combinator>) {
    && (forall i | 0 <= i < |cfg.rules| :: Careful(cfg, order, cfg.rules[i].condition))
    && forall s | s in cfg.signals :: Careful(cfg, order, cfg.signals[s])
  }

  // ------------------------------------------------------------ evaluation is total

  lemma EvaluationChoice(node: Node)
    requires node.Object?
    ensures Chosen(EVALUATION_ORDER, node) ==
      if node.any.Some? then Some(Any) else if node.all.Some? then Some(All)
      else if node.negated.Some? then Some(Negation) else None
  {
    assert [Negation][1..] == [] && [All, Negation][1..] == [Negation] && EVALUATION_ORDER[1..] == [All, Negation];
    assert Chosen([Negation], node) == if node.negated.Some? then Some(Negation) else None;
    assert Chosen([All, Negation], node) == if node.all.Some? then Some(All) else Chosen([Negation], node);
  }

  /** More fuel changes no answer. */
  lemma {:induction false} MoreFuel(t: Text, cfg: Config, context: Context, node: Node, fuel: nat)
    requires !Evaluate(t, cfg, context, node, fuel).Diverged?
    ensures Evaluate(t, cfg, context, node, fuel + 1) == Evaluate(t, cfg, context, node, fuel)
    decreases fuel, 0
  {
    match node
    case Ref(n) =>
      if n in cfg.signals {
        MoreFuel(t, cfg, context, cfg.signals[n], fuel - 1);
      }
    case Object(any, all, negated, field, ops) =>
      if any.Some? {
        MoreFuelChildren(t, cfg, context, any.value, true, fuel - 1);
      } else if all.Some? {
        MoreFuelChildren(t, cfg, context, all.value, false, fuel - 1);
      } else if negated.Some? {
        MoreFuel(t, cfg, context, negated.value, fuel - 1);
      }
    case _ =>
  }

  lemma MoreFuelChildren(t: Text, cfg: Config, context: Context, children: Node, stopAt: bool, fuel: nat)
    requires !EvaluateChildren(t, cfg, context, children, stopAt, fuel).Diverged?
    ensures EvaluateChildren(t, cfg, context, children, stopAt, fuel + 1)
         == EvaluateChildren(t, cfg, context, children, stopAt, fuel)
    decreases fuel, 2
  {
    if children.Nodes? && children.items != [] {
      MoreFuelEach(t, cfg, context, children.items, stopAt, fuel);
    }
  }

  lemma {:induction false} MoreFuelEach(t: Text, cfg: Config, context: Context, items: seq<Node>, stopAt: bool, fuel: nat)
    requires !EvaluateEach(t, cfg, context, items, stopAt, fuel).Diverged?
    ensures EvaluateEach(t, cfg, context, items, stopAt, fuel + 1) == EvaluateEach(t, cfg, context, items, stopAt, fuel)
    decreases fuel, 1, |items|
  {
    if items != [] {
      MoreFuel(t, cfg, context, items[0], fuel);
      if Evaluate(t, cfg, context, items[0], fuel) == Holds(!stopAt) {
        MoreFuelEach(t, cfg, context, items[1..], stopAt, fuel);
      }
    }
  }

  lemma {:induction false} AnyMoreFuel(t: Text, cfg: Config, context: Context, node: Node, fuel: nat, more: nat)
    requires !Evaluate(t, cfg, context, node, fuel).Diverged? && fuel <= more
    ensures Evaluate(t, cfg, context, node, more) == Evaluate(t, cfg, context, node, fuel)
  {
    if fuel < more {
      AnyMoreFuel(t, cfg, context, node, fuel, more - 1);
      MoreFuel(t, cfg, context, node, more - 1);
    }
  }

  lemma ValidMatcherAnswers(t: Text, cfg: Config, context: Context, field: Option<string>, ops: seq<Operator>)
    requires ValidMatcher(cfg, field, ops) && CarefulMatcher(cfg, field, ops)
    ensures EvaluateMatcher(t, cfg, context, field, ops).Holds?
  {
  }

  /** Children that all have an answer give one. */
  lemma {:induction false} EachAnswers(t: Text, cfg: Config, context: Context, items: seq<Node>, stopAt: bool, fuel: nat)
    requires forall i | 0 <= i < |items| :: Evaluate(t, cfg, context, items[i], fuel).Holds?
    ensures EvaluateEach(t, cfg, context, items, stopAt, fuel).Holds?
  {
    if items != [] {
      EachAnswers(t, cfg, context, items[1..], stopAt, fuel);
    }
  }

  /** A validated node has an answer: signals still unseen, then depth, bound the calls. */
  lemma {:induction false} Answers(t: Text, cfg: Config, order: seq<Combinator>, context: Context, seen: set<string>,
                                   node: Node) returns (fuel: nat)
    requires Validate(cfg, order, seen, node) && Careful(cfg, order, node)
    requires forall s | s in cfg.signals :: Careful(cfg, order, cfg.signals[s])
    ensures Evaluate(t, cfg, context, node, fuel).Holds?
    decreases cfg.signals.Keys - seen, node, 0
  {
    match node
    case Ref(n) =>
      assert n in cfg.signals.Keys - seen && n !in cfg.signals.Keys - (seen + {n});
      var below := Answers(t, cfg, order, context, seen + {n}, cfg.signals[n]);
      fuel := below + 1;
    case Object(any, all, negated, field, ops) =>
      EvaluationChoice(node);
      match Chosen(order, node) {
        case None =>
          ValidMatcherAnswers(t, cfg, context, field, ops);
          fuel := 1;
        case Some(Any) =>
          var below := AnswersAll(t, cfg, order, context, seen, any.value.items);
          EachAnswers(t, cfg, context, any.value.items, true, below);
          fuel := below + 1;
        case Some(All) =>
          var below := AnswersAll(t, cfg, order, context, seen, all.value.items);
          EachAnswers(t, cfg, context, all.value.items, false, below);
          fuel := below + 1;
        case Some(Negation) =>
          var below := Answers(t, cfg, order, context, seen, negated.value);
          fuel := below + 1;
      }
  }

  lemma AnswersAll(t: Text, cfg: Config, order: seq<Combinator>, context: Context, seen: set<string>, items: seq<Node>)
    returns (fuel: nat)
    requires forall i | 0 <= i < |items| :: Validate(cfg, order, seen, items[i]) && Careful(cfg, order, items[i])
    requires forall s | s in cfg.signals :: Careful(cfg, order, cfg.signals[s])
    ensures forall i | 0 <= i < |items| :: Evaluate(t, cfg, context, items[i], fuel).Holds?
    decreases cfg.signals.Keys - seen, items, 1
  {
    fuel := 0;
    for k := 0 to |items|
      invariant forall i | 0 <= i < k :: Evaluate(t, cfg, context, items[i], fuel).Holds?
    {
      var one := Answers(t, cfg, order, context, seen, items[k]);
      var both := fuel + one;
      AnyMoreFuel(t, cfg, context, items[k], one, both);
      forall i | 0 <= i < k ensures Evaluate(t, cfg, context, items[i], both).Holds? {
        AnyMoreFuel(t, cfg, context, items[i], fuel, both);
      }
      fuel := both;
    }
  }

  /** The answer evaluation gives with enough fuel, if it gives one. */
  ghost function Answer(t: Text, cfg: Config, context: Context, node: Node): Verdict {
    if fuel: nat :| !Evaluate(t, cfg, context, node, fuel).Diverged? then Evaluate(t, cfg, context, node, fuel) else Diverged
  }

  lemma AnswerIs(t: Text, cfg: Config, context: Context, node: Node, fuel: nat)
    requires !Evaluate(t, cfg, context, node, fuel).Diverged?
    ensures Answer(t, cfg, context, node) == Evaluate(t, cfg, context, node, fuel)
  {
    var other: nat :| !Evaluate(t, cfg, context, node, other).Diverged?
      && Answer(t, cfg, context, node) == Evaluate(t, cfg, context, node, other);
    AnyMoreFuel(t, cfg, context, node, fuel, fuel + other);
    AnyMoreFuel(t, cfg, context, node, other, fuel + other);
  }

  /** In a config the parser accepts, every rule and every signal evaluates to true or false on every context. */
  lemma ParsedConfigsEvaluate(t: Text, cfg: Config, order: seq<Combinator>, context: Context)
    requires Parsed(cfg, order) && CarefulConfig(cfg, order)
    ensures forall i | 0 <= i < |cfg.rules| :: Answer(t, cfg, context, cfg.rules[i].condition).Holds?
    ensures forall s | s in cfg.signals :: Answer(t, cfg, context, Ref(s)).Holds?
  {
    forall i | 0 <= i < |cfg.rules| ensures Answer(t, cfg, context, cfg.rules[i].condition).Holds? {
      var fuel := Answers(t, cfg, order, context, {}, cfg.rules[i].condition);
      AnswerIs(t, cfg, context, cfg.rules[i].condition, fuel);
    }
    forall s | s in cfg.signals ensures Answer(t, cfg, context, Ref(s)).Holds? {
      var fuel := Answers(t, cfg, order, context, {s}, cfg.signals[s]);
      AnswerIs(t, cfg, context, Ref(s), fuel + 1);
    }
  }

  // ------------------------------------------------------------ what the answers mean

  /** Whether the answer of some, or of every, child is true. */
  ghost predicate SomeHolds(t: Text, cfg: Config, context: Context, items: seq<Node>) {
    exists i | 0 <= i < |items| :: Answer(t, cfg, context, items[i]) == Holds(true)
  }

  ghost predicate EveryHolds(t: Text, cfg: Config, context: Context, items: seq<Node>) {
    forall i | 0 <= i < |items| :: Answer(t, cfg, context, items[i]) == Holds(true)
  }

  /** Fuel for which every child answers, if each has some. */
  lemma FuelForAll(t: Text, cfg: Config, context: Context, items: seq<Node>) returns (fuel: nat)
    requires forall i | 0 <= i < |items| :: Answer(t, cfg, context, items[i]).Holds?
    ensures forall i | 0 <= i < |items| ::
      Evaluate(t, cfg, context, items[i], fuel) == Answer(t, cfg, context, items[i])
  {
    fuel := 0;
    for k := 0 to |items|
      invariant forall i | 0 <= i < k :: Evaluate(t, cfg, context, items[i], fuel) == Answer(t, cfg, context, items[i])
    {
      var one: nat :| Evaluate(t, cfg, context, items[k], one) == Answer(t, cfg, context, items[k]);
      AnyMoreFuel(t, cfg, context, items[k], one, fuel + one);
      forall i | 0 <= i < k
        ensures Evaluate(t, cfg, context, items[i], fuel + one) == Answer(t, cfg, context, items[i])
      {
        AnyMoreFuel(t, cfg, context, items[i], fuel, fuel + one);
      }
      fuel := fuel + one;
    }
  }

  lemma {:induction false} EachMeans(t: Text, cfg: Config, context: Context, items: seq<Node>, stopAt: bool, fuel: nat)
    requires forall i | 0 <= i < |items| :: Evaluate(t, cfg, context, items[i], fuel).Holds?
    ensures EvaluateEach(t, cfg, context, items, stopAt, fuel) ==
      if exists i | 0 <= i < |items| :: Evaluate(t, cfg, context, items[i], fuel) == Holds(stopAt) then Holds(stopAt)
      else Holds(!stopAt)
  {
    if items != [] {
      EachMeans(t, cfg, context, items[1..], stopAt, fuel);
      forall i | 0 < i < |items| ensures items[i] == items[1..][i - 1] {}
      assert forall i | 0 <= i < |items| - 1 :: items[1..][i] == items[i + 1];
    }
  }

  /** Although evaluation stops early, `any` is disjunction and `all` is conjunction of what the children answer. */
  lemma CombinatorsMeanTheirNames(t: Text, cfg: Config, context: Context, items: seq<Node>)
    requires items != [] && forall i | 0 <= i < |items| :: Answer(t, cfg, context, items[i]).Holds?
    ensures Answer(t, cfg, context, Object(Some(Nodes(items)), None, None, None, []))
      == Holds(SomeHolds(t, cfg, context, items))
    ensures Answer(t, cfg, context, Object(None, Some(Nodes(items)), None, None, []))
      == Holds(EveryHolds(t, cfg, context, items))
  {
    var fuel := FuelForAll(t, cfg, context, items);
    EachMeans(t, cfg, context, items, true, fuel);
    EachMeans(t, cfg, context, items, false, fuel);
    AnswerIs(t, cfg, context, Object(Some(Nodes(items)), None, None, None, []), fuel + 1);
    AnswerIs(t, cfg, context, Object(None, Some(Nodes(items)), None, None, []), fuel + 1);
  }

  /** `not` negates, and a signal answers as its definition does. */
  lemma NegationAndSignals(t: Text, cfg: Config, context: Context, node: Node, name: string)
    requires Answer(t, cfg, context, node).Holds?
    ensures Answer(t, cfg, context, Object(None, None, Some(node), None, []))
      == Holds(!Answer(t, cfg, context, node).value)
    ensures name in cfg.signals && cfg.signals[name] == node ==>
      Answer(t, cfg, context, Ref(name)) == Answer(t, cfg, context, node)
  {
    var fuel: nat :| Evaluate(t, cfg, context, node, fuel) == Answer(t, cfg, context, node);
    AnswerIs(t, cfg, context, Object(None, None, Some(node), None, []), fuel + 1);
    if name in cfg.signals && cfg.signals[name] == node {
      AnswerIs(t, cfg, context, Ref(name), fuel + 1);
    }
  }

  // ------------------------------------------------------------ the conditions are needed

  /** A validated matcher has an answer on every context exactly when its field has a name and its list is defined. */
  lemma MatcherIsTotalExactly(t: Text, cfg: Config, field: Option<string>, ops: seq<Operator>)
    requires ValidMatcher(cfg, field, ops)
    ensures (forall context :: EvaluateMatcher(t, cfg, context, field, ops).Holds?) <==> CarefulMatcher(cfg, field, ops)
  {
    if CarefulMatcher(cfg, field, ops) {
      forall context ensures EvaluateMatcher(t, cfg, context, field, ops).Holds? {
        ValidMatcherAnswers(t, cfg, context, field, ops);
      }
    } else {
      var context: Context := map[t.key(field.value) := "x"];
      assert EvaluateMatcher(t, cfg, context, field, ops).Refused?;
    }
  }

  /** An object with two combinators: validation that looks at `all` first accepts what evaluation, which looks at `any`
      first, refuses. */
  lemma TwoCombinatorsEscapeValidation(t: Text, context: Context)
    ensures var cfg := Config(map[], map[], [], "");
      var good := Object(None, None, None, Some("source"), [Glob("*")]);
      var node := Object(Some(Scalar), Some(Nodes([good])), None, None, []);
      && Validate(cfg, [All, Any, Negation], {}, node)
      && Answer(t, cfg, context, node) == Refused
      && !Validate(cfg, EVALUATION_ORDER, {}, node)
  {
    var cfg := Config(map[], map[], [], "");
    var good := Object(None, None, None, Some("source"), [Glob("*")]);
    var node := Object(Some(Scalar), Some(Nodes([good])), None, None, []);
    var order := [All, Any, Negation];
    assert order[1..] == [Any, Negation] && order[1..][1..] == [Negation] && order[1..][1..][1..] == [];
    EvaluationChoice(node);
    EvaluationChoice(good);
    assert Chosen(order, good) == None;
    assert Evaluate(t, cfg, context, node, 1) == Refused;
    AnswerIs(t, cfg, context, node, 1);
  }

  /** With one combinator per object, the order of iteration does not matter. */
  lemma {:induction false} OneCombinatorIsAgreed(order: seq<Combinator>, node: Node, c: Combinator)
    requires node.Object? && (forall d | Child(node, d).Some? :: d == c)
    requires c in order
    ensures Chosen(order, node) == if Child(node, c).Some? then Some(c) else None
    ensures Chosen(order, node) == Chosen(EVALUATION_ORDER, node)
  {
    EvaluationChoice(node);
    assert Child(node, Any).Some? ==> Any == c;
    assert Child(node, All).Some? ==> All == c;
    assert Child(node, Negation).Some? ==> Negation == c;
    if order[0] != c {
      OneCombinatorIsAgreed(order[1..], node, c);
    } else if Child(node, c).None? {
      NoCombinator(order, node);
    }
  }

  lemma NoCombinator(order: seq<Combinator>, node: Node)
    requires node.Object? && forall d :: Child(node, d).None?
    ensures Chosen(order, node) == None
  {
  }

  /** One of the orders in which the set of combinators can be iterated. */
  predicate IterationOrder(order: seq<Combinator>) {
    |order| == 3 && Any in order && All in order && Negation in order
  }

  /** The present combinator `d`, and then the others. */
  function Preferring(d: Combinator): (order: seq<Combinator>)
    ensures IterationOrder(order) && order[0] == d
  {
    match d
    case Any => [Any, All, Negation]
    case All => [All, Any, Negation]
    case Negation => [Negation, Any, All]
  }

  /** Validation looks at the combinator that evaluation looks at, whatever the order of iteration, exactly when the
      object has no two combinators. */
  lemma OrderIsIrrelevantExactly(node: Node)
    requires node.Object?
    ensures (forall order | IterationOrder(order) :: Chosen(order, node) == Chosen(EVALUATION_ORDER, node))
      <==> forall c, d | Child(node, c).Some? && Child(node, d).Some? :: c == d
  {
    if c, d :| Child(node, c).Some? && Child(node, d).Some? && c != d {
      assert Chosen(Preferring(c), node) == Some(c) && Chosen(Preferring(d), node) == Some(d);
    } else {
      var c := if node.any.Some? then Any else if node.all.Some? then All else Negation;
      forall d | Child(node, d).Some? ensures d == c {
        assert Child(node, c).Some?;
      }
      forall order | IterationOrder(order) ensures Chosen(order, node) == Chosen(EVALUATION_ORDER, node) {
        OneCombinatorIsAgreed(order, node, c);
      }
    }
  }

  // ------------------------------------------------------------ resolving by the rules

  /** Which rule wins; `Raised` when evaluating one raises. */
  datatype Winner = Wins(rule: Rule) | NoRule | Raised

  /** The rules top to bottom, first match wins. */
  ghost function FirstMatch(t: Text, cfg: Config, context: Context, rules: seq<Rule>): Winner {
    if rules == [] then NoRule else
    match Answer(t, cfg, context, rules[0].condition)
    case Holds(true) => Wins(rules[0])
    case Holds(false) => FirstMatch(t, cfg, context, rules[1..])
    case _ => Raised
  }

  /** The destination the rules pick, or the default. */
  ghost function Resolve(t: Text, cfg: Config, context: Context, rules: seq<Rule>): Option<string> {
    match FirstMatch(t, cfg, context, rules)
    case Wins(r) => Some(r.destination)
    case NoRule => Some(cfg.default)
    case Raised => None
  }

  lemma {:induction false} NothingRaised(t: Text, cfg: Config, context: Context, rules: seq<Rule>)
    requires forall i | 0 <= i < |rules| :: Answer(t, cfg, context, rules[i].condition).Holds?
    ensures !FirstMatch(t, cfg, context, rules).Raised?
  {
    if rules != [] {
      assert Answer(t, cfg, context, rules[0].condition).Holds?;
      NothingRaised(t, cfg, context, rules[1..]);
    }
  }

  /** Routing by a parsed config never raises. */
  lemma ParsedConfigsResolve(t: Text, cfg: Config, order: seq<Combinator>, context: Context)
    requires Parsed(cfg, order) && CarefulConfig(cfg, order)
    ensures !FirstMatch(t, cfg, context, cfg.rules).Raised? && Resolve(t, cfg, context, cfg.rules).Some?
  {
    ParsedConfigsEvaluate(t, cfg, order, context);
    NothingRaised(t, cfg, context, cfg.rules);
  }
}
