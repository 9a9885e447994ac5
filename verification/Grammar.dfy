/** Symbols, rules and what they stand for, as values. */
module Grammar {
  import opened Numbers
  import opened Text

  // ---------------------------------------------------------------- symbols

  /** A grammar symbol: a terminal token, or a reference to a rule. */
  datatype Symbol = Terminal(text: string) | Ref(id: int)

  const RULE_PREFIX := "\0rule:"

  /** The internal string form of a symbol. */
  function Raw(s: Symbol): string
    requires s.Ref? ==> 0 < s.id
  {
    match s
    case Terminal(text) => text
    case Ref(id) => RULE_PREFIX + NatText(id)
  }

  /** The rule an internal string refers to, if it is a rule reference. */
  function RuleID(raw: string): Option<int> {
    if RULE_PREFIX <= raw then Positive(Atoi(raw[|RULE_PREFIX|..])) else None
  }

  function Positive(id: Option<int>): Option<int> {
    if id.Some? && 0 < id.value then id else None
  }

  function DecodeRaw(raw: string): Symbol {
    match RuleID(raw)
    case Some(id) => Ref(id)
    case None => Terminal(raw)
  }

  /** The display name of a rule: M1, M2, and so on. */
  function RuleRef(id: int): string {
    if id <= 0 then "S" else "M" + NatText(id)
  }

  function Display(s: Symbol): string {
    match s
    case Terminal(text) => text
    case Ref(id) => RuleRef(id)
  }

  function DisplayAll(ss: seq<Symbol>): (out: seq<string>)
    ensures |out| == |ss|
  {
    seq(|ss|, i requires 0 <= i < |ss| => Display(ss[i]))
  }

  function DisplayRuleID(text: string): Option<int> {
    if |text| < 2 || text[0] != 'M' then None else Positive(Atoi(text[1..]))
  }

  function ParseDisplay(text: string): Symbol {
    match DisplayRuleID(text)
    case Some(id) => Ref(id)
    case None => Terminal(text)
  }

  function ParseAll(texts: seq<string>): (ss: seq<Symbol>)
    ensures |ss| == |texts|
  {
    seq(|texts|, i requires 0 <= i < |texts| => ParseDisplay(texts[i]))
  }

  /** A rule id that a machine integer holds. */
  predicate IdFits(s: Symbol) {
    s.Ref? ==> 0 < s.id <= MAX_INT64
  }

  /** The internal string form loses nothing, exactly when no terminal imitates a rule reference. */
  lemma RawRoundTrip(s: Symbol)
    requires IdFits(s)
    ensures DecodeRaw(Raw(s)) == s <==> (s.Terminal? ==> RuleID(s.text).None?)
  {
    if s.Ref? {
      AtoiOfNatText(s.id);
      assert Raw(s)[|RULE_PREFIX|..] == NatText(s.id);
    }
  }

  /** The display form can be read back, exactly when no terminal is spelled like a rule name. */
  lemma DisplayRoundTrip(s: Symbol)
    requires IdFits(s)
    ensures ParseDisplay(Display(s)) == s <==> (s.Terminal? ==> DisplayRuleID(s.text).None?)
  {
    if s.Ref? {
      AtoiOfNatText(s.id);
      assert Display(s)[1..] == NatText(s.id);
    }
  }

  /** What follows the prefix is a rule id exactly when it is a positive machine integer; nothing else is one. */
  lemma OnlyPositiveIds(text: string, id: int)
    ensures RuleID(RULE_PREFIX + text) == Some(id) <==> Atoi(text) == Some(id) && id > 0
    ensures !(RULE_PREFIX <= text) ==> RuleID(text).None?
    ensures text != "" ==> (DisplayRuleID("M" + text) == Some(id) <==> Atoi(text) == Some(id) && id > 0)
  {
    hide Atoi;
    assert (RULE_PREFIX + text)[|RULE_PREFIX|..] == text && ("M" + text)[1..] == text;
  }

  /** A terminal spelled M05 comes back from its display form as rule 5, displayed M5. */
  lemma DisplayConfusesRuleLikeTerminals()
    ensures ParseDisplay(Display(Terminal("M05"))) == Ref(5)
    ensures Display(ParseDisplay(Display(Terminal("M05")))) != "M05"
  {
    assert "M05"[1..] == "05";
    assert "05"[..1] == "0" && "0"[..0] == "";
    assert NatValue("0") == 0 && NatValue("05") == 5;
    assert NatText(5) == "5";
  }

  /** A whole saved root can be read back, exactly when none of its terminals is spelled like a rule name. */
  lemma SavedRootIsReadIff(root: seq<Symbol>)
    requires forall i :: 0 <= i < |root| ==> IdFits(root[i])
    ensures ParseAll(DisplayAll(root)) == root <==>
      forall i :: 0 <= i < |root| && root[i].Terminal? ==> DisplayRuleID(root[i].text).None?
  {
    hide Display, ParseDisplay, DisplayRuleID;
    forall i | 0 <= i < |root|
      ensures ParseAll(DisplayAll(root))[i] == root[i] <==> (root[i].Terminal? ==> DisplayRuleID(root[i].text).None?)
    {
      DisplayRoundTrip(root[i]);
    }
  }

  function Terminals(tokens: seq<string>): (ss: seq<Symbol>)
    ensures |ss| == |tokens|
  {
    seq(|tokens|, i requires 0 <= i < |tokens| => Terminal(tokens[i]))
  }

  /** The tokens a grammar may hold: non-empty, and not the internal form of a rule reference. */
  ghost predicate AlphabetOk(alphabet: set<string>) {
    forall t :: t in alphabet ==> t != "" && RuleID(t).None?
  }

  // ------------------------------------------------------------------ rules

  type Digram = (Symbol, Symbol)

  /** A production. `count` is how many digrams it has replaced. */
  datatype Rule = Rule(id: int, count: int, body: seq<Symbol>)

  type Table = map<int, Rule>

  /** A symbol the table explains, using only ids below `bound` and terminals of the alphabet. */
  ghost predicate Known(s: Symbol, bound: int, alphabet: set<string>) {
    match s
    case Terminal(text) => text in alphabet
    case Ref(id) => 1 <= id < bound
  }

  ghost predicate KnownAll(ss: seq<Symbol>, bound: int, alphabet: set<string>) {
    forall i :: 0 <= i < |ss| ==> Known(ss[i], bound, alphabet)
  }

  ghost predicate RuleOk(r: Rule, id: int, alphabet: set<string>) {
    r.id == id && r.count >= 2 && |r.body| == 2 &&
    Known(r.body[0], id, alphabet) && Known(r.body[1], id, alphabet)
  }

  /** Ids are exactly 1 .. nextID - 1 and every body refers only to smaller ids. */
  ghost predicate TableOk(rules: Table, nextID: int, alphabet: set<string>) {
    1 <= nextID &&
    (forall id :: id in rules <==> 1 <= id < nextID) &&
    (forall id :: id in rules ==> RuleOk(rules[id], id, alphabet))
  }

  ghost predicate Maps(byDigram: map<Digram, int>, body: seq<Symbol>, id: int)
    requires |body| == 2
  {
    (body[0], body[1]) in byDigram && byDigram[(body[0], body[1])] == id
  }

  /** The digram lookup is the inverse of the rule bodies. */
  ghost predicate Inverse(rules: Table, byDigram: map<Digram, int>) {
    (forall id :: id in rules ==> |rules[id].body| == 2 && Maps(byDigram, rules[id].body, id)) &&
    (forall d :: d in byDigram ==> byDigram[d] in rules && rules[byDigram[d]].body == [d.0, d.1])
  }

  /** No two rules share a body. */
  lemma BodiesAreUnique(rules: Table, byDigram: map<Digram, int>, a: int, b: int)
    requires Inverse(rules, byDigram) && a in rules && b in rules
    requires rules[a].body == rules[b].body
    ensures a == b
  {
  }

  ghost predicate Descends(body: seq<Symbol>, id: int) {
    |body| == 2 && (body[0].Ref? ==> 0 < body[0].id < id) && (body[1].Ref? ==> 0 < body[1].id < id)
  }

  /** The table as an acyclic system of two-symbol productions. */
  ghost predicate Acyclic(rules: Table) {
    forall id :: id in rules ==> 0 < id && Descends(rules[id].body, id)
  }

  function Rank(s: Symbol): nat {
    if s.Ref? && 0 < s.id then s.id else 0
  }

  /** The terminals a symbol stands for. */
  ghost function Expand(rules: Table, s: Symbol): seq<string>
    requires Acyclic(rules)
    decreases Rank(s)
  {
    match s
    case Terminal(text) => [text]
    case Ref(id) =>
      if id in rules then Expand(rules, rules[id].body[0]) + Expand(rules, rules[id].body[1]) else []
  }

  /** The terminals a sequence of symbols stands for. */
  ghost function Flatten(rules: Table, ss: seq<Symbol>): seq<string>
    requires Acyclic(rules)
  {
    if ss == [] then [] else Flatten(rules, ss[..|ss| - 1]) + Expand(rules, ss[|ss| - 1])
  }

  /** A rule stands for at least two terminals. */
  lemma {:induction false} ExpansionLength(rules: Table, nextID: int, alphabet: set<string>, s: Symbol)
    requires TableOk(rules, nextID, alphabet) && Acyclic(rules) && Known(s, nextID, alphabet)
    ensures |Expand(rules, s)| >= if s.Ref? then 2 else 1
    decreases Rank(s)
  {
    if s.Ref? {
      ExpansionLength(rules, nextID, alphabet, rules[s.id].body[0]);
      ExpansionLength(rules, nextID, alphabet, rules[s.id].body[1]);
    }
  }

  /** A token joins any root without loss, exactly when it is not the internal form of a rule reference. */
  lemma TokenIsLosslessIff(rules: Table, nextID: int, alphabet: set<string>, root: seq<Symbol>, token: string)
    requires TableOk(rules, nextID, alphabet) && Acyclic(rules)
    ensures Flatten(rules, root + [DecodeRaw(token)]) == Flatten(rules, root) + [token] <==> RuleID(token).None?
  {
    hide RuleID;
    var s := DecodeRaw(token);
    assert (root + [s])[..|root|] == root;
    if s.Ref? && s.id in rules {
      ExpansionLength(rules, nextID, alphabet, s);
    }
    assert |Flatten(rules, root) + [token]| == |Flatten(rules, root)| + 1;
  }

  lemma {:induction false} FlattenConcat(rules: Table, a: seq<Symbol>, b: seq<Symbol>)
    requires Acyclic(rules)
    ensures Flatten(rules, a + b) == Flatten(rules, a) + Flatten(rules, b)
  {
    if b == [] {
      assert a + b == a;
    } else {
      FlattenConcat(rules, a, b[..|b| - 1]);
      assert (a + b)[..|a + b| - 1] == a + b[..|b| - 1];
    }
  }

  lemma FlattenBody(rules: Table, id: int)
    requires Acyclic(rules) && id in rules
    ensures Flatten(rules, rules[id].body) == Flatten(rules, [Ref(id)]) == Expand(rules, Ref(id))
  {
    var body := rules[id].body;
    assert body[..1] == [body[0]];
    assert Flatten(rules, [body[0]]) == [] + Expand(rules, body[0]);
    assert Flatten(rules, [Ref(id)]) == [] + Expand(rules, Ref(id));
  }

  /** Replacing a rule's body by a reference to the rule does not change what the root stands for. */
  lemma SubstitutionIsLossless(rules: Table, before: seq<Symbol>, id: int, after: seq<Symbol>)
    requires Acyclic(rules) && id in rules
    ensures Flatten(rules, before + rules[id].body + after) == Flatten(rules, before + [Ref(id)] + after)
  {
    FlattenBody(rules, id);
    FlattenAround(rules, before, rules[id].body, after);
    FlattenAround(rules, before, [Ref(id)], after);
  }

  lemma FlattenAround(rules: Table, before: seq<Symbol>, mid: seq<Symbol>, after: seq<Symbol>)
    requires Acyclic(rules)
    ensures Flatten(rules, before + mid + after) ==
            Flatten(rules, before) + Flatten(rules, mid) + Flatten(rules, after)
  {
    FlattenConcat(rules, before + mid, after);
    FlattenConcat(rules, before, mid);
  }

  /** Every rule of `rules` keeps its body in `more`. */
  ghost predicate SameBodies(rules: Table, more: Table) {
    forall id :: id in rules ==> id in more && more[id].body == rules[id].body
  }

  lemma {:induction false} ExpandFrame(rules: Table, more: Table, nextID: int, alphabet: set<string>, s: Symbol)
    requires TableOk(rules, nextID, alphabet) && Acyclic(rules) && Acyclic(more)
    requires SameBodies(rules, more) && Known(s, nextID, alphabet)
    ensures Expand(more, s) == Expand(rules, s)
    decreases Rank(s)
  {
    if s.Ref? {
      var body := rules[s.id].body;
      ExpandFrame(rules, more, nextID, alphabet, body[0]);
      ExpandFrame(rules, more, nextID, alphabet, body[1]);
    }
  }

  lemma {:induction false} FlattenFrame(
    rules: Table, more: Table, nextID: int, alphabet: set<string>, ss: seq<Symbol>)
    requires TableOk(rules, nextID, alphabet) && Acyclic(rules) && Acyclic(more) && SameBodies(rules, more)
    requires KnownAll(ss, nextID, alphabet)
    ensures Flatten(more, ss) == Flatten(rules, ss)
  {
    if ss != [] {
      FlattenFrame(rules, more, nextID, alphabet, ss[..|ss| - 1]);
      ExpandFrame(rules, more, nextID, alphabet, ss[|ss| - 1]);
    }
  }

  // ---------------------------------------------------------------- meaning

  /** `text` displays a symbol that stands for the last tokens of `tokens`, at least one of them. */
  ghost predicate StandsForEnd(rules: Table, text: string, tokens: seq<string>) {
    Acyclic(rules) && exists s :: EndsWith(rules, s, text, tokens)
  }

  ghost predicate EndsWith(rules: Table, s: Symbol, text: string, tokens: seq<string>)
    requires Acyclic(rules)
  {
    var e := Expand(rules, s);
    (s.Ref? ==> s.id in rules) && Display(s) == text && 1 <= |e| <= |tokens| && tokens[|tokens| - |e|..] == e
  }

  /** Whatever a display form stood for under `rules` it still stands for under `more`. */
  ghost predicate Keeps(rules: Table, more: Table) {
    forall text: string, tokens: seq<string> ::
      StandsForEnd(rules, text, tokens) ==> StandsForEnd(more, text, tokens)
  }

  lemma SameBodiesKeep(rules: Table, more: Table, nextID: int, alphabet: set<string>)
    requires TableOk(rules, nextID, alphabet) && Acyclic(rules) && Acyclic(more) && SameBodies(rules, more)
    ensures Keeps(rules, more)
  {
    hide TableOk, Expand, Display;
    forall text: string, tokens: seq<string> | StandsForEnd(rules, text, tokens)
      ensures StandsForEnd(more, text, tokens)
    {
      var s :| EndsWith(rules, s, text, tokens);
      SameExpansion(rules, more, nextID, alphabet, s);
      assert EndsWith(more, s, text, tokens);
    }
  }

  lemma SameExpansion(rules: Table, more: Table, nextID: int, alphabet: set<string>, s: Symbol)
    requires TableOk(rules, nextID, alphabet) && Acyclic(rules) && Acyclic(more) && SameBodies(rules, more)
    requires s.Ref? ==> s.id in rules
    ensures Expand(more, s) == Expand(rules, s)
  {
    if s.Ref? {
      ExpandFrame(rules, more, nextID, alphabet, s);
    }
  }

  /** The last symbol of a root stands for the end of what the root expands to. */
  lemma LastStandsForEnd(rules: Table, nextID: int, alphabet: set<string>, root: seq<Symbol>)
    requires TableOk(rules, nextID, alphabet) && Acyclic(rules) && KnownAll(root, nextID, alphabet) && root != []
    ensures StandsForEnd(rules, Display(root[|root| - 1]), Flatten(rules, root))
  {
    hide Display;
    var n := |root| - 1;
    assert Known(root[n], nextID, alphabet);
    ExpansionLength(rules, nextID, alphabet, root[n]);
    assert EndsWith(rules, root[n], Display(root[n]), Flatten(rules, root));
  }

  // ----------------------------------------------------------- conservation

  /** The sum of the counts of the rules with ids below `hi`. */
  ghost function CountSum(rules: Table, hi: int): int {
    if hi <= 1 then 0
    else CountSum(rules, hi - 1) + if hi - 1 in rules then rules[hi - 1].count else 0
  }

  lemma {:induction false} CountSumUpdate(rules: Table, hi: int, id: int, r: Rule)
    requires 1 <= id
    ensures id >= hi ==> CountSum(rules[id := r], hi) == CountSum(rules, hi)
    ensures id < hi && id in rules ==>
      CountSum(rules[id := r], hi) == CountSum(rules, hi) - rules[id].count + r.count
  {
    if hi > 1 {
      CountSumUpdate(rules, hi - 1, id, r);
    }
  }

  lemma {:induction false} CountSumAtLeastTwiceRules(rules: Table, nextID: int, hi: int, alphabet: set<string>)
    requires TableOk(rules, nextID, alphabet) && 1 <= hi <= nextID
    ensures CountSum(rules, hi) >= 2 * (hi - 1)
  {
    if hi > 1 {
      CountSumAtLeastTwiceRules(rules, nextID, hi - 1, alphabet);
    }
  }

  /** The table holds nextID - 1 rules. */
  lemma {:induction false} TableSize(rules: Table, nextID: int)
    requires 1 <= nextID && forall id :: id in rules <==> 1 <= id < nextID
    ensures |rules| == nextID - 1
    decreases nextID
  {
    if nextID > 1 {
      var rest := rules - {nextID - 1};
      TableSize(rest, nextID - 1);
      assert rules.Keys == rest.Keys + {nextID - 1};
    } else {
      assert forall id :: id !in rules;
      assert rules.Keys == {};
    }
  }

  // ---------------------------------------------------------- table updates

  /** Counting one more use of a rule changes no meaning. */
  lemma BumpCount(rules: Table, nextID: int, alphabet: set<string>, byDigram: map<Digram, int>, id: int)
    requires TableOk(rules, nextID, alphabet) && Inverse(rules, byDigram) && id in rules
    ensures var more := rules[id := rules[id].(count := rules[id].count + 1)];
      TableOk(more, nextID, alphabet) && Inverse(more, byDigram) && SameBodies(rules, more) &&
      CountSum(more, nextID) == CountSum(rules, nextID) + 1
  {
    CountSumUpdate(rules, nextID, id, rules[id].(count := rules[id].count + 1));
  }

  /** A new rule for an unruled digram of known symbols keeps the table sound. */
  lemma AddRule(rules: Table, nextID: int, alphabet: set<string>, byDigram: map<Digram, int>, d: Digram)
    requires TableOk(rules, nextID, alphabet) && Inverse(rules, byDigram) && d !in byDigram
    requires Known(d.0, nextID, alphabet) && Known(d.1, nextID, alphabet)
    ensures var more := rules[nextID := Rule(nextID, 2, [d.0, d.1])];
      TableOk(more, nextID + 1, alphabet) && Inverse(more, byDigram[d := nextID]) && SameBodies(rules, more) &&
      CountSum(more, nextID + 1) == CountSum(rules, nextID) + 2
  {
    CountSumUpdate(rules, nextID, nextID, Rule(nextID, 2, [d.0, d.1]));
  }

  // ------------------------------------------------------------------ depth

  /** The depth of rule `id` in any table, where `stack` holds the rules already being visited. */
  ghost function GuardedDepth(rules: Table, id: int, stack: set<int>): nat
    decreases |rules.Keys - stack|, 0, 0
  {
    if id in stack || id !in rules then 1
    else
      assert rules.Keys - (stack + {id}) < rules.Keys - stack;
      SmallerSet(rules.Keys - (stack + {id}), rules.Keys - stack);
      GuardedBodyDepth(rules, rules[id].body, stack + {id})
  }

  ghost function GuardedBodyDepth(rules: Table, body: seq<Symbol>, stack: set<int>): nat
    decreases |rules.Keys - stack|, 1, |body|
  {
    if body == [] then 1
    else
      var rest, last := GuardedBodyDepth(rules, body[..|body| - 1], stack), body[|body| - 1];
      if last.Ref? then MaxInt(rest, 1 + GuardedDepth(rules, last.id, stack)) else rest
  }

  lemma SmallerSet(a: set<int>, b: set<int>)
    requires a < b
    ensures |a| < |b|
  {
    assert b == a + (b - a);
  }

  /** How deeply rules nest below a symbol. */
  ghost function Height(rules: Table, s: Symbol): nat
    requires Acyclic(rules)
    decreases Rank(s)
  {
    match s
    case Terminal(_) => 0
    case Ref(id) =>
      if id in rules then 1 + MaxInt(Height(rules, rules[id].body[0]), Height(rules, rules[id].body[1])) else 0
  }

  /** In a sound table the cycle guard never fires and the guarded depth is the height. */
  lemma {:induction false} CycleGuardNeverFires(
    rules: Table, nextID: int, alphabet: set<string>, id: int, stack: set<int>)
    requires TableOk(rules, nextID, alphabet) && Acyclic(rules) && id in rules
    requires forall k :: k in stack ==> id < k
    ensures id !in stack && GuardedDepth(rules, id, stack) == Height(rules, Ref(id))
    decreases id
  {
    var body, inner := rules[id].body, stack + {id};
    assert RuleOk(rules[id], id, alphabet);
    if body[0].Ref? {
      CycleGuardNeverFires(rules, nextID, alphabet, body[0].id, inner);
    }
    if body[1].Ref? {
      CycleGuardNeverFires(rules, nextID, alphabet, body[1].id, inner);
    }
    assert body[..1] == [body[0]] && [body[0]][..0] == [];
    assert GuardedBodyDepth(rules, [], inner) == 1;
    assert GuardedBodyDepth(rules, [body[0]], inner) ==
      if body[0].Ref? then MaxInt(1, 1 + GuardedDepth(rules, body[0].id, inner)) else 1;
  }

  /** A chain of rule references: each rule occurs in the body of the one before it. */
  ghost predicate Chain(rules: Table, ids: seq<int>) {
    forall i :: 0 <= i < |ids| ==> ids[i] in rules && (i + 1 < |ids| ==> Ref(ids[i + 1]) in rules[ids[i]].body)
  }

  /** No chain of references below a rule is longer than its height. */
  lemma {:induction false} HeightBoundsChains(rules: Table, ids: seq<int>)
    requires Acyclic(rules) && ids != [] && Chain(rules, ids)
    ensures |ids| <= Height(rules, Ref(ids[0]))
    decreases |ids|
  {
    if |ids| > 1 {
      assert Chain(rules, ids[1..]) by {
        forall i | 0 <= i < |ids[1..]|
          ensures ids[1..][i] in rules
          ensures i + 1 < |ids[1..]| ==> Ref(ids[1..][i + 1]) in rules[ids[1..][i]].body
        {
          assert ids[1..][i] == ids[i + 1];
        }
      }
      HeightBoundsChains(rules, ids[1..]);
      assert ids[0] in rules && Ref(ids[1]) in rules[ids[0]].body;
      assert Descends(rules[ids[0]].body, ids[0]);
    }
  }

  /** Some chain of references below a rule is as long as its height. */
  lemma {:induction false} HeightIsReached(rules: Table, nextID: int, alphabet: set<string>, id: int)
    returns (ids: seq<int>)
    requires TableOk(rules, nextID, alphabet) && Acyclic(rules) && id in rules
    ensures ids != [] && ids[0] == id && Chain(rules, ids) && |ids| == Height(rules, Ref(id))
    decreases id
  {
    var body := rules[id].body;
    assert RuleOk(rules[id], id, alphabet);
    var deeper := if Height(rules, body[0]) < Height(rules, body[1]) then body[1] else body[0];
    if deeper.Terminal? {
      ids := [id];
    } else {
      var rest := HeightIsReached(rules, nextID, alphabet, deeper.id);
      ids := [id] + rest;
      assert forall i :: 1 <= i < |ids| ==> ids[i] == rest[i - 1];
    }
  }

  // ------------------------------------------------------------ saved views

  /** One production as it is published and saved. */
  datatype RuleView = RuleView(id: int, count: int, depth: nat, symbols: seq<string>, terminals: seq<string>)

  ghost function ViewOf(rules: Table, id: int): RuleView
    requires Acyclic(rules) && id in rules
  {
    RuleView(id, rules[id].count, Height(rules, Ref(id)), DisplayAll(rules[id].body), Expand(rules, Ref(id)))
  }

  /** `views` lists the rules of the table in increasing order of id. */
  ghost predicate ViewsOf(rules: Table, nextID: int, views: seq<RuleView>)
    requires Acyclic(rules)
  {
    |views| == nextID - 1 &&
    forall i :: 0 <= i < |views| ==> i + 1 in rules && views[i] == ViewOf(rules, i + 1)
  }

  // ----------------------------------------------------------- saved tables

  /** What a saved grammar held. */
  datatype Saved = Saved(
    rules: Table, nextID: int, byDigram: map<Digram, int>, alphabet: set<string>, root: seq<Symbol>)

  /** A token that stands in the root or in the body of a rule. */
  ghost predicate Uses(rules: Table, root: seq<Symbol>, token: string) {
    Terminal(token) in root || exists id :: id in rules && Terminal(token) in rules[id].body
  }

  ghost function UsedTokens(rules: Table, root: seq<Symbol>, alphabet: set<string>): set<string> {
    set t | t in alphabet && Uses(rules, root, t)
  }

  /** A grammar is sound over the tokens it uses, whatever else it was once fed. */
  lemma UsedTokensSuffice(rules: Table, nextID: int, root: seq<Symbol>, alphabet: set<string>)
    requires TableOk(rules, nextID, alphabet) && KnownAll(root, nextID, alphabet) && AlphabetOk(alphabet)
    ensures var used := UsedTokens(rules, root, alphabet);
      TableOk(rules, nextID, used) && KnownAll(root, nextID, used) && AlphabetOk(used)
  {
    hide RuleID;
    var used := UsedTokens(rules, root, alphabet);
    forall id | id in rules ensures RuleOk(rules[id], id, used) {
      assert RuleOk(rules[id], id, alphabet);
      assert rules[id].body[0] in rules[id].body && rules[id].body[1] in rules[id].body;
    }
    forall i | 0 <= i < |root| ensures Known(root[i], nextID, used) {
      assert root[i] in root;
    }
  }

  /** The saved form of a symbol sequence can be read back. */
  ghost predicate ReadsBack(ss: seq<Symbol>) {
    ParseAll(DisplayAll(ss)) == ss
  }

  /** A saved grammar is read back, root and bodies, exactly when no token it uses is spelled like a rule name. */
  lemma SavedGrammarIsReadIff(rules: Table, nextID: int, root: seq<Symbol>, alphabet: set<string>)
    requires TableOk(rules, nextID, alphabet) && KnownAll(root, nextID, alphabet) && nextID <= MAX_INT64
    ensures ReadsBack(root) && (forall id :: id in rules ==> ReadsBack(rules[id].body)) <==>
      Displayable(UsedTokens(rules, root, alphabet), nextID)
  {
    hide Display, ParseDisplay, DisplayRuleID, ParseAll, DisplayAll;
    var used := UsedTokens(rules, root, alphabet);
    ReadsBackIff(root, nextID, alphabet);
    forall id | id in rules
      ensures ReadsBack(rules[id].body) <==> forall t :: Terminal(t) in rules[id].body ==> DisplayRuleID(t).None?
    {
      var body := rules[id].body;
      assert RuleOk(rules[id], id, alphabet);
      ReadsBackIff(body, id, alphabet);
    }
    forall t | Uses(rules, root, t) ensures t in used {
      UsedIsKnown(rules, nextID, root, alphabet, t);
    }
  }

  lemma UsedIsKnown(rules: Table, nextID: int, root: seq<Symbol>, alphabet: set<string>, t: string)
    requires TableOk(rules, nextID, alphabet) && KnownAll(root, nextID, alphabet) && Uses(rules, root, t)
    ensures t in alphabet
  {
    if Terminal(t) in root {
      var i :| 0 <= i < |root| && root[i] == Terminal(t);
      assert Known(root[i], nextID, alphabet);
    } else {
      var id :| id in rules && Terminal(t) in rules[id].body;
      assert RuleOk(rules[id], id, alphabet);
    }
  }

  lemma ReadsBackIff(ss: seq<Symbol>, nextID: int, alphabet: set<string>)
    requires KnownAll(ss, nextID, alphabet) && nextID <= MAX_INT64
    ensures ReadsBack(ss) <==> forall t :: Terminal(t) in ss ==> DisplayRuleID(t).None?
  {
    hide Display, ParseDisplay, DisplayRuleID, ParseAll, DisplayAll;
    forall i | 0 <= i < |ss| ensures IdFits(ss[i]) {
      assert Known(ss[i], nextID, alphabet);
    }
    SavedRootIsReadIff(ss);
    if forall i :: 0 <= i < |ss| && ss[i].Terminal? ==> DisplayRuleID(ss[i].text).None? {
      forall t | Terminal(t) in ss ensures DisplayRuleID(t).None? {
        var i :| 0 <= i < |ss| && ss[i] == Terminal(t);
      }
    }
    forall i | 0 <= i < |ss| && ss[i].Terminal? ensures Terminal(ss[i].text) in ss {
    }
  }

  /** No token is spelled like a rule name, and the ids fit a machine integer. */
  ghost predicate Displayable(alphabet: set<string>, nextID: int) {
    nextID <= MAX_INT64 && forall t :: t in alphabet ==> DisplayRuleID(t).None?
  }

  ghost predicate SavedOk(g: Saved) {
    TableOk(g.rules, g.nextID, g.alphabet) && Acyclic(g.rules) && Inverse(g.rules, g.byDigram) &&
    KnownAll(g.root, g.nextID, g.alphabet) && AlphabetOk(g.alphabet) && Displayable(g.alphabet, g.nextID) &&
    (|g.root| >= 2 ==> (g.root[|g.root| - 2], g.root[|g.root| - 1]) !in g.byDigram)
  }

  /** Known symbols survive being displayed and parsed back. */
  lemma ParseDisplayed(ss: seq<Symbol>, nextID: int, alphabet: set<string>)
    requires KnownAll(ss, nextID, alphabet) && Displayable(alphabet, nextID)
    ensures ParseAll(DisplayAll(ss)) == ss
  {
    forall i | 0 <= i < |ss| ensures ParseDisplay(Display(ss[i])) == ss[i] {
      assert Known(ss[i], nextID, alphabet);
      DisplayRoundTrip(ss[i]);
    }
  }

  lemma DisplayNonEmpty(s: Symbol)
    requires s.Terminal? ==> s.text != ""
    ensures Display(s) != ""
  {
  }

  lemma {:induction false} DisplayedNonEmpty(ss: seq<Symbol>, nextID: int, alphabet: set<string>)
    requires KnownAll(ss, nextID, alphabet) && AlphabetOk(alphabet)
    ensures NonEmpty(DisplayAll(ss)) == DisplayAll(ss)
  {
    hide Display, RuleID;
    if ss != [] {
      var n := |ss| - 1;
      DisplayedNonEmpty(ss[..n], nextID, alphabet);
      assert DisplayAll(ss)[..n] == DisplayAll(ss[..n]);
      assert Known(ss[n], nextID, alphabet);
      DisplayNonEmpty(ss[n]);
    }
  }

  /** The rules with ids up to `n`. */
  ghost function Prefix(rules: Table, n: int): Table {
    map id | id in rules && id <= n :: rules[id]
  }

  /** Learning the saved rules in order of id rebuilds the table and its digram lookup. */
  lemma LearnStep(g: Saved, learned: map<Digram, int>, n: int)
    requires TableOk(g.rules, g.nextID, g.alphabet) && Inverse(g.rules, g.byDigram)
    requires 0 <= n < g.nextID - 1 && Inverse(Prefix(g.rules, n), learned)
    ensures n + 1 in g.rules && |g.rules[n + 1].body| == 2
    ensures var body := g.rules[n + 1].body;
      Prefix(g.rules, n + 1) == Prefix(g.rules, n)[n + 1 := g.rules[n + 1]] &&
      Inverse(Prefix(g.rules, n + 1), learned[(body[0], body[1]) := n + 1])
  {
    var body := g.rules[n + 1].body;
    var d := (body[0], body[1]);
    if d in learned {
      BodiesAreUnique(g.rules, g.byDigram, learned[d], n + 1);
    }
  }

  lemma InverseIsUnique(rules: Table, a: map<Digram, int>, b: map<Digram, int>)
    requires Inverse(rules, a) && Inverse(rules, b)
    ensures a == b
  {
    forall d | d in a ensures d in b && b[d] == a[d] {
      assert Maps(b, rules[a[d]].body, a[d]);
    }
    forall d | d in b ensures d in a {
      assert Maps(a, rules[b[d]].body, b[d]);
    }
  }

  lemma EmptyPrefix(g: Saved)
    requires SavedOk(g)
    ensures Prefix(g.rules, 0) == map[] && Inverse(map[], map[])
  {
  }

  lemma WholePrefix(g: Saved)
    requires SavedOk(g)
    ensures Prefix(g.rules, g.nextID - 1) == g.rules
  {
  }

  lemma EmptyRoot(g: Saved)
    requires SavedOk(g)
    ensures KnownAll([], g.nextID, g.alphabet) && Flatten(g.rules, []) == []
  {
  }

  /** The saved view of rule `n + 1` carries its body and count, and its symbols parse back to the body. */
  lemma ViewSymbols(g: Saved, n: int)
    requires SavedOk(g) && 0 <= n < g.nextID - 1
    ensures n + 1 in g.rules && g.rules[n + 1].id == n + 1 && g.rules[n + 1].count >= 2 && |g.rules[n + 1].body| == 2
    ensures var v := ViewOf(g.rules, n + 1);
      v.id == n + 1 && v.count == g.rules[n + 1].count && |v.symbols| == 2 &&
      ParseAll(v.symbols) == g.rules[n + 1].body && ParseDisplay(v.symbols[0]) == g.rules[n + 1].body[0] &&
      ParseDisplay(v.symbols[1]) == g.rules[n + 1].body[1]
  {
    assert RuleOk(g.rules[n + 1], n + 1, g.alphabet);
    var body := g.rules[n + 1].body;
    ParseDisplayed(body, g.nextID, g.alphabet);
    assert ParseAll(DisplayAll(body))[0] == body[0] && ParseAll(DisplayAll(body))[1] == body[1];
  }
}
