/**
 What the operators of a matcher and the rules of a config answer, said of the context itself (`_evaluate_matcher` and
 the rule loop of `resolve` in scripts/cbz_routing.py).
 */
module OperatorMeanings {
  import opened Outcomes
  import opened RoutingPredicates

  /** `{"field": field, op: ...}` */
  function Matcher(field: string, op: Operator): Node {
    Object(None, None, None, Some(field), [op])
  }

  /** The context has a value for the field, and it is not empty. */
  predicate Present(t: Text, context: Context, field: string) {
    t.key(field) in context && context[t.key(field)] != ""
  }

  ghost function Says(t: Text, cfg: Config, context: Context, field: string, op: Operator): Verdict {
    Answer(t, cfg, context, Matcher(field, op))
  }

  lemma MatcherAnswers(t: Text, cfg: Config, context: Context, field: string, op: Operator)
    ensures Says(t, cfg, context, field, op) == EvaluateMatcher(t, cfg, context, Some(field), [op])
  {
    AnswerIs(t, cfg, context, Matcher(field, op), 1);
  }

  /** `equals`: the value is there and equal up to case. */
  lemma EqualsMeans(t: Text, cfg: Config, context: Context, field: string, s: string)
    requires field != ""
    ensures Says(t, cfg, context, field, Equals(s))
      == Holds(Present(t, context, field) && t.fold(context[t.key(field)]) == t.fold(s))
  {
    MatcherAnswers(t, cfg, context, field, Equals(s));
  }

  /** `in` is the disjunction of `equals` over its items. */
  lemma InMeans(t: Text, cfg: Config, context: Context, field: string, items: seq<string>)
    requires field != ""
    ensures Says(t, cfg, context, field, In(items))
      == Holds(exists x :: x in items && Says(t, cfg, context, field, Equals(x)) == Holds(true))
  {
    MatcherAnswers(t, cfg, context, field, In(items));
    forall x ensures Says(t, cfg, context, field, Equals(x))
      == Holds(Present(t, context, field) && t.fold(context[t.key(field)]) == t.fold(x))
    {
      EqualsMeans(t, cfg, context, field, x);
    }
  }

  /** `in_list` is `in` over the named list. */
  lemma InListMeans(t: Text, cfg: Config, context: Context, field: string, name: string)
    requires field != "" && name in cfg.lists
    ensures Says(t, cfg, context, field, InList(name)) == Says(t, cfg, context, field, In(cfg.lists[name]))
  {
    MatcherAnswers(t, cfg, context, field, InList(name));
    MatcherAnswers(t, cfg, context, field, In(cfg.lists[name]));
  }

  /** `glob`: the value is there and matches the pattern, both case-folded. */
  lemma GlobMeans(t: Text, cfg: Config, context: Context, field: string, pattern: string)
    requires field != ""
    ensures Says(t, cfg, context, field, Glob(pattern))
      == Holds(Present(t, context, field) && t.glob(t.fold(context[t.key(field)]), t.fold(pattern)))
  {
    MatcherAnswers(t, cfg, context, field, Glob(pattern));
  }

  /** `glob_in_list` is the disjunction of `glob` over the named list. */
  lemma GlobInListMeans(t: Text, cfg: Config, context: Context, field: string, name: string)
    requires field != "" && name in cfg.lists
    ensures Says(t, cfg, context, field, GlobInList(name))
      == Holds(exists p :: p in cfg.lists[name] && Says(t, cfg, context, field, Glob(p)) == Holds(true))
  {
    MatcherAnswers(t, cfg, context, field, GlobInList(name));
    forall p ensures Says(t, cfg, context, field, Glob(p))
      == Holds(Present(t, context, field) && t.glob(t.fold(context[t.key(field)]), t.fold(p)))
    {
      GlobMeans(t, cfg, context, field, p);
    }
  }

  /** `glob_tokens_in_list`: some token of the folded value that is not empty matches some pattern of the list. */
  lemma GlobTokensMeans(t: Text, cfg: Config, context: Context, field: string, name: string)
    requires field != "" && name in cfg.lists
    ensures Says(t, cfg, context, field, GlobTokensInList(name))
      == Holds(Present(t, context, field) && exists token, p ::
           token in t.tokens(t.fold(context[t.key(field)])) && p in cfg.lists[name]
           && token != "" && t.glob(token, t.fold(p)))
  {
    MatcherAnswers(t, cfg, context, field, GlobTokensInList(name));
  }

  /** `domain_in_list`: the host of the value, not folded first, is that of some item. */
  lemma DomainMeans(t: Text, cfg: Config, context: Context, field: string, name: string)
    requires field != "" && name in cfg.lists
    ensures Says(t, cfg, context, field, DomainInList(name))
      == Holds(Present(t, context, field)
               && exists d :: d in cfg.lists[name] && t.domain(d) == t.domain(context[t.key(field)]))
  {
    MatcherAnswers(t, cfg, context, field, DomainInList(name));
  }

  /** `contains_any`: some item is part of the value, both case-folded. */
  lemma ContainsMeans(t: Text, cfg: Config, context: Context, field: string, items: seq<string>)
    requires field != ""
    ensures Says(t, cfg, context, field, ContainsAny(items))
      == Holds(Present(t, context, field)
               && exists x :: x in items && t.contains(t.fold(x), t.fold(context[t.key(field)])))
  {
    MatcherAnswers(t, cfg, context, field, ContainsAny(items));
  }

  /** An absent value is false for every operator, and a list that is not defined raises for every other value. */
  lemma AbsentAndUndefined(t: Text, cfg: Config, context: Context, field: string, op: Operator)
    requires field != "" && !op.Unknown?
    ensures !Present(t, context, field) ==> Says(t, cfg, context, field, op) == Holds(false)
    ensures Present(t, context, field) && ListName(op).Some? && ListName(op).value !in cfg.lists ==>
      Says(t, cfg, context, field, op) == Refused
  {
    MatcherAnswers(t, cfg, context, field, op);
  }

  /** A matcher without a field name, without exactly one operator, or with an unknown one raises. */
  lemma MalformedRaises(t: Text, cfg: Config, context: Context, field: Option<string>, ops: seq<Operator>)
    ensures field.None? || field.value == "" || |ops| != 1 || ops[0].Unknown? ==>
      Answer(t, cfg, context, Object(None, None, None, field, ops)) == Refused
  {
    AnswerIs(t, cfg, context, Object(None, None, None, field, ops), 1);
  }

  /** A reference to no signal raises, and so does what is neither a reference nor an object. */
  lemma NoPredicateRaises(t: Text, cfg: Config, context: Context, name: string, items: seq<Node>)
    ensures name !in cfg.signals ==> Answer(t, cfg, context, Ref(name)) == Refused
    ensures Answer(t, cfg, context, Nodes(items)) == Refused
  {
    if name !in cfg.signals {
      AnswerIs(t, cfg, context, Ref(name), 1);
    }
    AnswerIs(t, cfg, context, Nodes(items), 1);
  }

  // ------------------------------------------------------------ rules

  /** Rule `i` is the first that holds, and none before it raises. */
  ghost predicate FirstHolds(t: Text, cfg: Config, context: Context, rules: seq<Rule>, i: nat) {
    && i < |rules| && Answer(t, cfg, context, rules[i].condition) == Holds(true)
    && forall j | 0 <= j < i :: Answer(t, cfg, context, rules[j].condition) == Holds(false)
  }

  ghost predicate NoneHolds(t: Text, cfg: Config, context: Context, rules: seq<Rule>) {
    forall j | 0 <= j < |rules| :: Answer(t, cfg, context, rules[j].condition) == Holds(false)
  }

  /** The first rule that holds wins, and the default when none does. */
  lemma {:induction false} FirstRuleWins(t: Text, cfg: Config, context: Context, rules: seq<Rule>)
    ensures forall i: nat | FirstHolds(t, cfg, context, rules, i) ::
      Resolve(t, cfg, context, rules) == Some(rules[i].destination) && FirstMatch(t, cfg, context, rules) == Wins(rules[i])
    ensures NoneHolds(t, cfg, context, rules) ==>
      Resolve(t, cfg, context, rules) == Some(cfg.default) && FirstMatch(t, cfg, context, rules) == NoRule
    ensures FirstMatch(t, cfg, context, rules).Raised?
      || NoneHolds(t, cfg, context, rules) || exists i: nat :: FirstHolds(t, cfg, context, rules, i)
  {
    if rules != [] {
      var rest := rules[1..];
      FirstRuleWins(t, cfg, context, rest);
      assert forall j | 0 <= j < |rest| :: rest[j] == rules[j + 1];
      forall i: nat | FirstHolds(t, cfg, context, rules, i) && i > 0 ensures FirstHolds(t, cfg, context, rest, i - 1) {
      }
      if Answer(t, cfg, context, rules[0].condition) == Holds(false) {
        if NoneHolds(t, cfg, context, rest) {
          forall j | 0 <= j < |rules| ensures Answer(t, cfg, context, rules[j].condition) == Holds(false) {
            assert j > 0 ==> rules[j] == rest[j - 1];
          }
        } else if i: nat :| FirstHolds(t, cfg, context, rest, i) {
          forall j | 0 <= j < i + 1 ensures Answer(t, cfg, context, rules[j].condition) == Holds(false) {
            assert j > 0 ==> rules[j] == rest[j - 1];
          }
          assert FirstHolds(t, cfg, context, rules, i + 1);
        }
      } else if Answer(t, cfg, context, rules[0].condition) == Holds(true) {
        assert FirstHolds(t, cfg, context, rules, 0);
      }
    }
  }

  // ------------------------------------------------------------ what the parser accepts

  lemma EachIsAccepted(cfg: Config, order: seq<Combinator>, seen: set<string>, items: seq<Node>)
    ensures (forall c | c in items :: Validate(cfg, order, seen, c)) <==>
      forall i | 0 <= i < |items| :: Validate(cfg, order, seen, items[i])
  {
    forall i | 0 <= i < |items| ensures items[i] in items {
    }
  }

  /** An object with one combinator is accepted exactly with a list of accepted predicates that is not empty, or with one
      accepted predicate under a negation; in whatever order the combinators are looked for. */
  lemma CombinatorsAcceptedExactly(cfg: Config, order: seq<Combinator>, seen: set<string>, children: Node)
    requires Any in order && All in order && Negation in order
    ensures Validate(cfg, order, seen, Object(Some(children), None, None, None, [])) <==>
      children.Nodes? && children.items != [] && forall c | c in children.items :: Validate(cfg, order, seen, c)
    ensures Validate(cfg, order, seen, Object(None, Some(children), None, None, [])) <==>
      children.Nodes? && children.items != [] && forall c | c in children.items :: Validate(cfg, order, seen, c)
    ensures Validate(cfg, order, seen, Object(None, None, Some(children), None, [])) <==>
      Validate(cfg, order, seen, children)
  {
    var any, all, negation := Object(Some(children), None, None, None, []), Object(None, Some(children), None, None, []),
      Object(None, None, Some(children), None, []);
    OneCombinatorIsAgreed(order, any, Any);
    OneCombinatorIsAgreed(order, all, All);
    OneCombinatorIsAgreed(order, negation, Negation);
    assert Child(any, Any) == Child(all, All) == Child(negation, Negation) == Some(children);
    assert Chosen(order, any) == Some(Any) && Chosen(order, all) == Some(All) && Chosen(order, negation) == Some(Negation);
    if children.Nodes? {
      EachIsAccepted(cfg, order, seen, children.items);
    }
  }

  /** A matcher is accepted exactly with a field, one operator that is known, and a defined list where `in_list` or one of
      the glob operators names it; `domain_in_list` goes unchecked. */
  lemma MatchersAcceptedExactly(cfg: Config, order: seq<Combinator>, seen: set<string>, field: Option<string>, ops: seq<Operator>)
    ensures Validate(cfg, order, seen, Object(None, None, None, field, ops)) <==>
      field.Some? && |ops| == 1 &&
      match ops[0]
      case Unknown(_) => false
      case InList(name) => name in cfg.lists
      case GlobInList(name) => name in cfg.lists
      case GlobTokensInList(name) => name in cfg.lists
      case _ => true
  {
    NoCombinator(order, Object(None, None, None, field, ops));
  }

  /** A reference is accepted exactly when the signal is defined, is not one on the way to it, and is accepted itself. */
  lemma ReferencesAcceptedExactly(cfg: Config, order: seq<Combinator>, seen: set<string>, name: string)
    ensures Validate(cfg, order, seen, Ref(name)) <==>
      name in cfg.signals && name !in seen && Validate(cfg, order, seen + {name}, cfg.signals[name])
    ensures !Validate(cfg, order, seen, Nodes([]))
  {
  }
}
