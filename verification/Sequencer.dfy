/** The sequencer: a grammar whose root tail feeds the segmenter, which in turn ends sentences. */
module SequencerModel {
  import opened Text
  import opened Grammar
  import opened SequiturModel
  import opened MdlModel

  /** One segment of a cut. */
  datatype Token = Token(symbol: string, brightness: real)

  datatype SequencerState = SequencerState(
    lastEmitted: string, root: seq<string>, rules: seq<RuleView>, mdl: MdlState)

  /** The last `n` elements, or all of them when there are fewer. */
  function LastOf<T>(s: seq<T>, n: int): seq<T> {
    if n <= 0 then [] else s[if n < |s| then |s| - n else 0..]
  }

  /** The cut over a root: its last `n` symbols, the final one carrying the brightness. */
  function CutOf(root: seq<Symbol>, n: int, brightness: real): seq<Token> {
    var segments := DisplayAll(LastOf(root, n));
    seq(|segments|, i requires 0 <= i < |segments| =>
      Token(segments[i], if i == |segments| - 1 then brightness else 0.0))
  }

  /** A cut shows the end of the root in order, and only its final token carries the brightness. */
  lemma CutShape(root: seq<Symbol>, n: int, brightness: real)
    ensures var cut := CutOf(root, n, brightness);
      |cut| == (if n <= 0 then 0 else if n < |root| then n else |root|) &&
      (forall i :: 0 <= i < |cut| ==> cut[i].symbol == Display(root[|root| - |cut| + i])) &&
      (forall i :: 0 <= i < |cut| - 1 ==> cut[i].brightness == 0.0) &&
      (cut != [] ==> cut[|cut| - 1].brightness == brightness)
  {
  }

  /** The segmenter's newest symbol is the display form of the root's last symbol. */
  ghost predicate LastFed(seen: seq<string>, root: seq<Symbol>) {
    seen != [] && root != [] && seen[|seen| - 1] == Display(root[|root| - 1])
  }

  /** The sentence as `parts` join it one by one. */
  ghost function Growing(open: seq<string>, parts: seq<string>): (r: seq<seq<string>>)
    ensures |r| == |parts|
  {
    seq(|parts|, k requires 0 <= k < |parts| => open + parts[..k + 1])
  }

  /** Each symbol seen stands for the end of what the sentence was when its token was in. */
  ghost predicate HeardAll(rules: Table, seen: seq<string>, heard: seq<seq<string>>) {
    |seen| == |heard| && forall k :: 0 <= k < |seen| ==> StandsForEnd(rules, seen[k], heard[k])
  }

  /** From `n` on, the symbols seen are those of `open` growing by `parts` one by one. */
  ghost predicate Heard(rules: Table, seen: seq<string>, n: nat, open: seq<string>, parts: seq<string>) {
    n <= |seen| && HeardAll(rules, seen[n..], Growing(open, parts))
  }

  class Sequencer {
    const grammar: Sequitur
    const mdl: Mdl
    const maxPathLength: int
    var lastEmitted: string
    var sentenceBreak: bool

    ghost predicate Valid()
      reads this, grammar, grammar.ring, mdl, mdl.dist
    {
      grammar.Valid() && grammar.Settled() && mdl.Valid()
    }

    constructor (log: real -> real, maxPathLength: int)
      ensures Valid() && fresh(grammar) && fresh(mdl) && fresh(mdl.dist)
      ensures forall x :: x in Members(grammar.ring) ==> fresh(x)
      ensures grammar.root == [] && grammar.rules == map[] && grammar.nextID == 1 && grammar.alphabet == {}
      ensures grammar.digrams == map[] && grammar.fed == [] && mdl.seen == []
      ensures mdl.log == log && this.maxPathLength == maxPathLength
      ensures lastEmitted == "" && !sentenceBreak && mdl.offset == 0 && mdl.stream == []
      ensures mdl.minSegmentSymbols == 2
    {
      grammar := new Sequitur();
      mdl := new Mdl(log, 2);
      this.maxPathLength := maxPathLength;
      lastEmitted, sentenceBreak := "", false;
    }

    /** Ends the sentence and forgets the last step. */
    method Reset()
      requires Valid()
      modifies this, grammar, Members(grammar.ring)
      ensures Valid() && grammar.root == [] && grammar.fed == [] && grammar.rules == old(grammar.rules)
      ensures lastEmitted == "" && !sentenceBreak && mdl.seen == old(mdl.seen) && mdl.offset == old(mdl.offset)
      ensures mdl.dist == old(mdl.dist) && Members(grammar.ring) <= old(Members(grammar.ring))
      ensures mdl.stream == old(mdl.stream)
    {
      hide Sequitur.Valid, Mdl.Valid, Members;
      lastEmitted, sentenceBreak := "", false;
      InRing(grammar);
      grammar.Sentence();
    }

    /** Feeds one token to the grammar and the resulting root tail to the segmenter. */
    method StepOne(symbol: string)
      requires Valid() && symbol != "" && RuleID(symbol).None?
      modifies this`sentenceBreak, grammar, Members(grammar.ring), mdl, mdl.dist
      ensures Valid() && (mdl.dist == old(mdl.dist) || fresh(mdl.dist))
      ensures forall x :: x in Members(grammar.ring) ==> x in old(Members(grammar.ring)) || fresh(x)
      ensures grammar.fed == old(grammar.fed) + [symbol] && grammar.root != []
      ensures mdl.seen == old(mdl.seen) + [Display(grammar.root[|grammar.root| - 1])]
      ensures Keeps(old(grammar.rules), grammar.rules)
      ensures StandsForEnd(grammar.rules, mdl.seen[|mdl.seen| - 1], grammar.fed)
      ensures old(mdl.stream) <= mdl.stream && |mdl.stream| == |old(mdl.stream)| + 1
      ensures 0 <= old(mdl.offset) <= |mdl.stream| && mdl.offset == mdl.NextStart(mdl.stream, old(mdl.offset))
      ensures sentenceBreak <==> old(sentenceBreak) || mdl.offset > old(mdl.offset)
    {
      hide Sequitur.Valid, Sequitur.Settled, Members, Mdl.CutIsBest, Mdl.Gain, Display, RuleID, Mdl.NextStart, Keeps,
        StandsForEnd, InternedAs, Histogram.Valid;
      var tail := FeedGrammar(grammar, symbol);
      if |tail| > 0 {
        var boundary, _ := mdl.Analyze(tail[0]);
        if boundary {
          sentenceBreak := true;
        }
      }
    }

    /** Feeds one token to a grammar and reads back the last symbol of its root. */
    static method FeedGrammar(g: Sequitur, symbol: string) returns (tail: seq<string>)
      requires g.Valid() && symbol != "" && RuleID(symbol).None?
      modifies g, Members(g.ring)
      ensures g.Valid() && g.Settled() && g.fed == old(g.fed) + [symbol] && g.root != []
      ensures forall x :: x in Members(g.ring) ==> x in old(Members(g.ring)) || fresh(x)
      ensures tail == [Display(g.root[|g.root| - 1])] && tail[0] != ""
      ensures Keeps(old(g.rules), g.rules) && StandsForEnd(g.rules, tail[0], g.fed)
    {
      hide Sequitur.Valid, Members, DisplayAll, Display, RuleID, NonEmpty, Keeps, StandsForEnd, TableOk, Acyclic,
        SameBodies;
      NonEmptyOne(symbol);
      ghost var rules, nextID, alphabet := g.rules, g.nextID, g.alphabet;
      TableIsOk(g);
      var _ := g.Analyze([symbol]);
      TableIsOk(g);
      SameBodiesKeep(rules, g.rules, nextID, alphabet);
      RootIsNotEmpty(g);
      tail := g.Tail(1);
      TailOfOne(g.root);
    }

    static lemma TailOfOne(root: seq<Symbol>)
      requires root != []
      ensures DisplayAll(root[if 1 < |root| then |root| - 1 else 0..]) == [Display(root[|root| - 1])]
      ensures Display(root[|root| - 1]) in DisplayAll(root)
    {
      assert DisplayAll(root)[|root| - 1] == Display(root[|root| - 1]);
    }

    method StepAll(parts: seq<string>)
      requires Valid() && forall i :: 0 <= i < |parts| ==> parts[i] != "" && RuleID(parts[i]).None?
      modifies this`sentenceBreak, grammar, Members(grammar.ring), mdl, mdl.dist
      ensures Valid() && grammar.fed == old(grammar.fed) + parts && old(mdl.seen) <= mdl.seen
      ensures parts != [] ==> LastFed(mdl.seen, grammar.root)
      ensures Heard(grammar.rules, mdl.seen, |old(mdl.seen)|, old(grammar.fed), parts)
      ensures Keeps(old(grammar.rules), grammar.rules)
      ensures old(mdl.stream) <= mdl.stream && |mdl.stream| == |old(mdl.stream)| + |parts|
      ensures 0 <= old(mdl.offset) <= |old(mdl.stream)|
      ensures mdl.offset == mdl.StartFrom(mdl.stream, |old(mdl.stream)|, old(mdl.offset))
      ensures sentenceBreak <==> old(sentenceBreak) || mdl.offset > old(mdl.offset)
      ensures mdl.dist == old(mdl.dist) || fresh(mdl.dist)
      ensures forall x :: x in Members(grammar.ring) ==> x in old(Members(grammar.ring)) || fresh(x)
    {
      hide Sequitur.Valid, Sequitur.Settled, Mdl.Valid, Members, RuleID, StandsForEnd, Mdl.NextStart, LastFed, Heard,
        Keeps;
      OffsetInStream(mdl);
      HeardNothing(grammar.rules, mdl.seen, grammar.fed);
      for i := 0 to |parts|
        invariant Valid() && (mdl.dist == old(mdl.dist) || fresh(mdl.dist))
        invariant forall x :: x in Members(grammar.ring) ==> x in old(Members(grammar.ring)) || fresh(x)
        invariant grammar.fed == old(grammar.fed) + parts[..i] && old(mdl.seen) <= mdl.seen
        invariant i > 0 ==> LastFed(mdl.seen, grammar.root)
        invariant Heard(grammar.rules, mdl.seen, |old(mdl.seen)|, old(grammar.fed), parts[..i])
        invariant Keeps(old(grammar.rules), grammar.rules)
        invariant old(mdl.stream) <= mdl.stream && |mdl.stream| == |old(mdl.stream)| + i
        invariant 0 <= old(mdl.offset) <= |old(mdl.stream)|
        invariant mdl.offset == mdl.StartFrom(mdl.stream, |old(mdl.stream)|, old(mdl.offset))
        invariant sentenceBreak <==> old(sentenceBreak) || mdl.offset > old(mdl.offset)
      {
        ghost var rules, seen, stream := grammar.rules, mdl.seen, mdl.stream;
        StepOne(parts[i]);
        assert parts[..i + 1] == parts[..i] + [parts[i]];
        HeardMore(old(grammar.rules), rules, grammar.rules, seen, mdl.seen, |old(mdl.seen)|, old(grammar.fed),
                  parts[..i], parts[i]);
        JustFed(mdl.seen, grammar.root);
        assert mdl.stream[..|mdl.stream| - 1] == stream;
      }
      assert parts[..|parts|] == parts;
    }

    /** Appends a path of symbols; a repeated path only refreshes the brightness of the cut. */
    method StepPath(symbols: seq<string>, brightness: real) returns (cut: seq<Token>)
      requires Valid() && forall i :: 0 <= i < |symbols| ==> RuleID(symbols[i]).None?
      modifies this, grammar, Members(grammar.ring), mdl, mdl.dist
      ensures Valid()
      ensures NonEmpty(symbols) == [] ==> cut == [] && unchanged(this) && unchanged(grammar) && unchanged(mdl)
      ensures NonEmpty(symbols) != [] ==> cut == CutOf(grammar.root, maxPathLength, brightness)
      ensures NonEmpty(symbols) != [] && Join(NonEmpty(symbols), ".") == old(lastEmitted) ==>
        !sentenceBreak && mdl.offset == old(mdl.offset) && lastEmitted == old(lastEmitted) &&
        mdl.seen == old(mdl.seen) && mdl.stream == old(mdl.stream) && grammar.rules == old(grammar.rules) &&
        grammar.fed == if old(sentenceBreak) then [] else old(grammar.fed)
      ensures NonEmpty(symbols) != [] && Join(NonEmpty(symbols), ".") != old(lastEmitted) ==>
        var open := if old(sentenceBreak) then [] else old(grammar.fed);
        LastFed(mdl.seen, grammar.root) && old(mdl.seen) <= mdl.seen && lastEmitted == Join(NonEmpty(symbols), ".") &&
        grammar.fed == open + NonEmpty(symbols) &&
        Heard(grammar.rules, mdl.seen, |old(mdl.seen)|, open, NonEmpty(symbols)) &&
        old(mdl.stream) <= mdl.stream && |mdl.stream| == |old(mdl.stream)| + |NonEmpty(symbols)| &&
        0 <= old(mdl.offset) <= |old(mdl.stream)| &&
        mdl.offset == mdl.StartFrom(mdl.stream, |old(mdl.stream)|, old(mdl.offset)) &&
        (sentenceBreak <==> mdl.offset > old(mdl.offset))
      ensures Keeps(old(grammar.rules), grammar.rules)
      ensures mdl.dist == old(mdl.dist) || fresh(mdl.dist)
      ensures forall x :: x in Members(grammar.ring) ==> x in old(Members(grammar.ring)) || fresh(x)
    {
      hide Sequitur.Valid, Sequitur.Settled, Mdl.Valid, Members, RuleID, StandsForEnd, Heard, LastFed, Mdl.StartFrom,
        Join;
      var parts := Filter(symbols);
      if parts == [] {
        return [];
      }
      if sentenceBreak {
        InRing(grammar);
        grammar.Sentence();
        sentenceBreak := false;
      }
      var key := Join(parts, ".");
      if key != lastEmitted {
        StepAll(parts);
        lastEmitted := key;
      }
      cut := Cut(brightness);
    }

    method Filter(symbols: seq<string>) returns (parts: seq<string>)
      ensures parts == NonEmpty(symbols)
      ensures forall i :: 0 <= i < |parts| ==> parts[i] != "" && parts[i] in symbols
    {
      parts := [];
      for i := 0 to |symbols|
        invariant parts == NonEmpty(symbols[..i])
        invariant forall k :: 0 <= k < |parts| ==> parts[k] != "" && parts[k] in symbols
      {
        assert symbols[..i + 1][..i] == symbols[..i];
        if symbols[i] == "" {
          continue;
        }
        parts := parts + [symbols[i]];
      }
      assert symbols[..|symbols|] == symbols;
    }

    method Cut(tailBrightness: real) returns (tokens: seq<Token>)
      requires Valid()
      ensures tokens == CutOf(grammar.root, maxPathLength, tailBrightness)
    {
      hide Sequitur.Valid, Mdl.Valid;
      var segments := grammar.Tail(maxPathLength);
      tokens := [];
      for i := 0 to |segments|
        invariant |tokens| == i
        invariant forall k :: 0 <= k < i ==>
          tokens[k] == Token(segments[k], if k == |segments| - 1 then tailBrightness else 0.0)
      {
        var b := 0.0;
        if i == |segments| - 1 {
          b := tailBrightness;
        }
        tokens := tokens + [Token(segments[i], b)];
      }
    }

    // ------------------------------------------------------- save and restore

    method State() returns (state: SequencerState)
      requires Valid()
      ensures state.lastEmitted == lastEmitted && state.root == DisplayAll(grammar.root)
      ensures ViewsOf(grammar.rules, grammar.nextID, state.rules) && state.mdl == mdl.Saved()
    {
      var root := grammar.RootSequence();
      var rules := grammar.RuleViews();
      var saved := mdl.State();
      state := SequencerState(lastEmitted, root, rules, saved);
    }

    /** Rebuilds a saved sequencer in a new one. */
    method Restore(state: SequencerState, ghost g: Saved, ghost seen: seq<string>)
      requires Valid() && grammar.rules == map[] && grammar.nextID == 1 && grammar.alphabet == {}
      requires grammar.root == [] && grammar.digrams == map[]
      requires SavedOk(g) && ViewsOf(g.rules, g.nextID, state.rules) && state.root == DisplayAll(g.root)
      requires StateOk(state.mdl, seen)
      modifies this, grammar, Members(grammar.ring), mdl
      ensures Valid() && grammar.rules == g.rules && grammar.nextID == g.nextID && grammar.ruleByDigram == g.byDigram
      ensures grammar.root == g.root && grammar.fed == Flatten(g.rules, g.root) && mdl.Saved() == state.mdl
      ensures lastEmitted == state.lastEmitted && !sentenceBreak && fresh(mdl.dist)
      ensures forall x :: x in Members(grammar.ring) ==> x in old(Members(grammar.ring)) || fresh(x)
    {
      hide Sequitur.Valid, Mdl.Valid, Members, StateOk, SavedOk, ViewsOf;
      grammar.Restore(state.root, state.rules, g);
      mdl.Restore(state.mdl, seen);
      lastEmitted := state.lastEmitted;
      sentenceBreak := false;
    }
  }

  lemma InRing(g: Sequitur)
    requires g.Valid()
    ensures g.sentinel in Members(g.ring)
  {
  }

  lemma TableIsOk(g: Sequitur)
    requires g.Valid()
    ensures TableOk(g.rules, g.nextID, g.alphabet) && Acyclic(g.rules)
  {
  }

  lemma OffsetInStream(m: Mdl)
    requires m.Valid()
    ensures 0 <= m.offset <= |m.stream| == |m.seen|
  {
  }

  lemma HeardNothing(rules: Table, seen: seq<string>, open: seq<string>)
    ensures Heard(rules, seen, |seen|, open, []) && Keeps(rules, rules)
  {
  }

  lemma JustFed(seen: seq<string>, root: seq<Symbol>)
    requires seen != [] && root != [] && seen[|seen| - 1] == Display(root[|root| - 1])
    ensures LastFed(seen, root)
  {
  }

  /** One more token heard, under a table that keeps what the former one meant. */
  lemma HeardMore(first: Table, rules: Table, more: Table, seen: seq<string>, seen': seq<string>, n: nat,
                  open: seq<string>, parts: seq<string>, token: string)
    requires Heard(rules, seen, n, open, parts) && Keeps(first, rules) && Keeps(rules, more)
    requires |seen'| == |seen| + 1 && seen <= seen'
    requires StandsForEnd(more, seen'[|seen|], open + parts + [token])
    ensures Heard(more, seen', n, open, parts + [token]) && Keeps(first, more)
  {
    hide StandsForEnd;
    var longer := parts + [token];
    var heard, before := Growing(open, longer), Growing(open, parts);
    forall k | 0 <= k < |longer| ensures StandsForEnd(more, seen'[n..][k], heard[k]) {
      if k < |parts| {
        assert longer[..k + 1] == parts[..k + 1];
        assert heard[k] == before[k] && seen'[n..][k] == seen[n..][k];
      } else {
        assert longer[..k + 1] == longer && open + longer == open + parts + [token];
      }
    }
  }

  lemma RootIsNotEmpty(g: Sequitur)
    requires g.Valid() && g.fed != []
    ensures g.root != []
    ensures "" !in DisplayAll(g.root)
    ensures StandsForEnd(g.rules, Display(g.root[|g.root| - 1]), g.fed)
  {
    LastStandsForEnd(g.rules, g.nextID, g.alphabet, g.root);
    forall i | 0 <= i < |g.root| ensures Display(g.root[i]) != "" {
      assert Known(g.root[i], g.nextID, g.alphabet);
      DisplayNonEmpty(g.root[i]);
    }
  }

  /**
    Saving any reachable sequencer and restoring it into a new one loses nothing that can be observed:
    the restored one saves the same state, issues the same next rule id and expands to the same tokens.
   */
  method SaveRestoreRoundTrip(s: Sequencer)
    returns (saved: SequencerState, t: Sequencer, again: SequencerState)
    requires s.Valid()
    requires Displayable(UsedTokens(s.grammar.rules, s.grammar.root, s.grammar.alphabet), s.grammar.nextID)
    ensures again == saved && t.Valid()
    ensures fresh(t) && fresh(t.grammar) && fresh(t.mdl) && fresh(t.mdl.dist)
    ensures forall x :: x in Members(t.grammar.ring) ==> fresh(x)
    ensures t.grammar.nextID == s.grammar.nextID && t.grammar.rules == s.grammar.rules
    ensures t.grammar.ruleByDigram == s.grammar.ruleByDigram && t.grammar.root == s.grammar.root
    ensures t.grammar.fed == s.grammar.fed && t.lastEmitted == s.lastEmitted && !t.sentenceBreak
  {
    hide Sequitur.Valid, Mdl.Valid, Members, StateOk, SavedOk;
    saved := s.State();
    ghost var g := SavedGrammar(s.grammar);
    s.mdl.SavedIsOk();
    t := new Sequencer(s.mdl.log, s.maxPathLength);
    t.Restore(saved, g, s.mdl.seen);
    again := t.State();
    ViewsAreUnique(g, saved.rules, again.rules);
  }

  ghost function SavedGrammar(g: Sequitur): (s: Saved)
    requires g.Valid() && g.Settled() && Displayable(UsedTokens(g.rules, g.root, g.alphabet), g.nextID)
    reads g, g.ring
    ensures SavedOk(s) && Flatten(s.rules, s.root) == g.fed
    ensures s.rules == g.rules && s.nextID == g.nextID && s.byDigram == g.ruleByDigram && s.root == g.root
  {
    UsedTokensSuffice(g.rules, g.nextID, g.root, g.alphabet);
    Saved(g.rules, g.nextID, g.ruleByDigram, UsedTokens(g.rules, g.root, g.alphabet), g.root)
  }

  lemma ViewsAreUnique(g: Saved, a: seq<RuleView>, b: seq<RuleView>)
    requires SavedOk(g) && ViewsOf(g.rules, g.nextID, a) && ViewsOf(g.rules, g.nextID, b)
    ensures a == b
  {
    assert forall i :: 0 <= i < |a| ==> a[i] == b[i];
  }

  // ------------------------------------------------------------- whole runs

  /** One call on a sequencer. */
  datatype Call = Path(symbols: seq<string>, brightness: real) | Restart

  ghost predicate Feedable(calls: seq<Call>) {
    forall i, j :: 0 <= i < |calls| && calls[i].Path? && 0 <= j < |calls[i].symbols| ==>
      RuleID(calls[i].symbols[j]).None?
  }

  /**
    The open sentence, whether the next non-empty step ends it, the last path taken, and for each token
    fed so far what the sentence was once it was in.
   */
  datatype Sentence = Sentence(tokens: seq<string>, ending: bool, last: string, heard: seq<seq<string>>)

  /** Where the segmenter's open segment starts once `n` symbols of `stream` are in. */
  ghost function Start(m: Mdl, stream: seq<int>, n: nat): int {
    if n <= |stream| then m.StartOf(stream[..n]) else 0
  }

  /**
    The sentence after one more call. A restart ends it at once; a call in which the segmenter cuts ends
    it at the next non-empty step; a repeated path adds nothing.
   */
  ghost function Extended(before: Sentence, call: Call, m: Mdl, stream: seq<int>): Sentence {
    match call
    case Restart => Sentence([], false, "", before.heard)
    case Path(symbols, _) =>
      var parts, open := NonEmpty(symbols), if before.ending then [] else before.tokens;
      if parts == [] then before
      else if Join(parts, ".") == before.last then Sentence(open, false, before.last, before.heard)
      else
        var n := |before.heard|;
        var cut := Start(m, stream, n + |parts|) > Start(m, stream, n);
        Sentence(open + parts, cut, Join(parts, "."), before.heard + Growing(open, parts))
  }

  /** The sentence a sequence of calls leaves, when the segmenter's stream is `stream`. */
  ghost function SentenceOf(calls: seq<Call>, m: Mdl, stream: seq<int>): Sentence {
    if calls == [] then Sentence([], false, "", [])
    else Extended(SentenceOf(calls[..|calls| - 1], m, stream), calls[|calls| - 1], m, stream)
  }

  /** Symbols that come later do not change the sentence. */
  lemma {:induction false} LaterSymbols(calls: seq<Call>, m: Mdl, stream: seq<int>, longer: seq<int>)
    requires stream <= longer && |SentenceOf(calls, m, stream).heard| <= |stream|
    ensures SentenceOf(calls, m, longer) == SentenceOf(calls, m, stream)
  {
    hide NonEmpty, Join, Mdl.StartOf;
    if calls != [] {
      var n := |calls| - 1;
      LaterSymbols(calls[..n], m, stream, longer);
      var k := |SentenceOf(calls[..n], m, stream).heard|;
      forall j | 0 <= j <= |stream| ensures stream[..j] == longer[..j] {
      }
    }
  }

  /**
    Any run of steps and resets from a new sequencer. The grammar's root expands to exactly the tokens of
    the open sentence; a sentence ends where cutting the segmenter's stream at its best splits says; and
    each symbol of that stream stands for the end of the sentence when its token was in.
   */
  method RunSequencer(calls: seq<Call>, log: real -> real, maxPathLength: int) returns (s: Sequencer)
    requires Feedable(calls)
    ensures s.Valid() && s.maxPathLength == maxPathLength
    ensures s.mdl.log == log && s.mdl.minSegmentSymbols == 2
    ensures var v := SentenceOf(calls, s.mdl, s.mdl.stream);
      Acyclic(s.grammar.rules) && Flatten(s.grammar.rules, s.grammar.root) == v.tokens &&
      s.sentenceBreak == v.ending && s.lastEmitted == v.last && HeardAll(s.grammar.rules, s.mdl.seen, v.heard)
    ensures |s.mdl.seen| == |s.mdl.stream| && s.mdl.offset == s.mdl.StartOf(s.mdl.stream)
  {
    hide Sequitur.Valid, Sequitur.Settled, Mdl.Valid, Members, RuleID, Extended, StandsForEnd, Mdl.StartOf, HeardAll;
    s := new Sequencer(log, maxPathLength);
    NothingHeard(s);
    for i := 0 to |calls|
      invariant s.Valid() && fresh(s) && fresh(s.grammar) && fresh(s.mdl) && fresh(s.mdl.dist)
      invariant forall x :: x in Members(s.grammar.ring) ==> fresh(x)
      invariant s.mdl.log == log && s.mdl.minSegmentSymbols == 2
      invariant s.maxPathLength == maxPathLength
      invariant Speaks(s, SentenceOf(calls[..i], s.mdl, s.mdl.stream))
    {
      ghost var v, stream := SentenceOf(calls[..i], s.mdl, s.mdl.stream), s.mdl.stream;
      Perform(s, calls[i], v);
      LaterSymbols(calls[..i], s.mdl, stream, s.mdl.stream);
      assert calls[..i + 1][..i] == calls[..i];
    }
    assert calls[..|calls|] == calls;
    ExpandsToFed(s);
    OffsetInStream(s.mdl);
  }

  /** A sequencer holds the sentence `v`. */
  ghost predicate Speaks(s: Sequencer, v: Sentence)
    reads s, s.grammar, s.mdl
  {
    s.grammar.fed == v.tokens && s.sentenceBreak == v.ending && s.lastEmitted == v.last &&
    |v.heard| == |s.mdl.stream| && s.mdl.offset == s.mdl.StartOf(s.mdl.stream) &&
    HeardAll(s.grammar.rules, s.mdl.seen, v.heard)
  }

  lemma NothingHeard(s: Sequencer)
    requires s.grammar.fed == [] && !s.sentenceBreak && s.lastEmitted == ""
    requires s.mdl.stream == [] && s.mdl.seen == [] && s.mdl.offset == 0
    ensures Speaks(s, Sentence([], false, "", []))
  {
  }

  method Perform(s: Sequencer, call: Call, ghost v: Sentence)
    requires s.Valid() && Speaks(s, v)
    requires call.Path? ==> forall j :: 0 <= j < |call.symbols| ==> RuleID(call.symbols[j]).None?
    modifies s, s.grammar, Members(s.grammar.ring), s.mdl, s.mdl.dist
    ensures s.Valid() && old(s.mdl.stream) <= s.mdl.stream && Speaks(s, Extended(v, call, s.mdl, s.mdl.stream))
    ensures s.mdl.dist == old(s.mdl.dist) || fresh(s.mdl.dist)
    ensures forall x :: x in Members(s.grammar.ring) ==> x in old(Members(s.grammar.ring)) || fresh(x)
  {
    hide Sequitur.Valid, Sequitur.Settled, Mdl.Valid, Members, RuleID, NonEmpty, Join, CutOf, LastFed, StandsForEnd,
      Heard, HeardAll, Mdl.StartFrom, Mdl.StartOf, Keeps, Start, Growing;
    match call {
      case Restart => s.Reset();
      case Path(symbols, brightness) =>
        ghost var rules, seen, stream := s.grammar.rules, s.mdl.seen, s.mdl.stream;
        OffsetInStream(s.mdl);
        var _ := s.StepPath(symbols, brightness);
        ghost var parts, open := NonEmpty(symbols), if v.ending then [] else v.tokens;
        if parts != [] && Join(parts, ".") != v.last {
          HeardOn(rules, s.grammar.rules, seen, s.mdl.seen, v.heard, open, parts);
          CutHere(s.mdl, stream, s.mdl.stream);
        }
    }
  }

  /** Everything heard before keeps its meaning, and the new symbols follow it. */
  lemma HeardOn(rules: Table, more: Table, seen: seq<string>, seen': seq<string>,
                heard: seq<seq<string>>, open: seq<string>, parts: seq<string>)
    requires HeardAll(rules, seen, heard) && Keeps(rules, more)
    requires seen <= seen' && Heard(more, seen', |seen|, open, parts)
    ensures HeardAll(more, seen', heard + Growing(open, parts))
  {
    hide StandsForEnd;
    var all := heard + Growing(open, parts);
    forall k | 0 <= k < |all| ensures StandsForEnd(more, seen'[k], all[k]) {
      if k < |seen| {
        assert StandsForEnd(rules, seen[k], heard[k]);
      } else {
        assert seen'[k] == seen'[|seen|..][k - |seen|] && all[k] == Growing(open, parts)[k - |seen|];
      }
    }
  }

  /** The segmenter's start after more symbols, in terms of the whole stream. */
  lemma CutHere(m: Mdl, stream: seq<int>, longer: seq<int>)
    requires stream <= longer
    ensures m.StartFrom(longer, |stream|, m.StartOf(stream)) == m.StartOf(longer)
    ensures Start(m, longer, |stream|) == m.StartOf(stream) && Start(m, longer, |longer|) == m.StartOf(longer)
  {
    hide Mdl.StartFrom;
    assert longer[..|stream|] == stream && longer[..|longer|] == longer;
    m.StartFromStages(longer, 0, |stream|, 0);
  }

  lemma ExpandsToFed(s: Sequencer)
    requires s.Valid()
    ensures Acyclic(s.grammar.rules) && Flatten(s.grammar.rules, s.grammar.root) == s.grammar.fed
  {
  }
}
