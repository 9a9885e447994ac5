/** The online grammar: a linked root sequence, its digram index, and the rules found so far. */
module SequiturModel {
  import opened Numbers
  import opened Text
  import opened Grammar

  class Node {
    var val: Symbol
    var prev: Node?
    var next: Node?

    constructor (val: Symbol)
      ensures this.val == val && prev == null && next == null
    {
      this.val := val;
      prev, next := null, null;
    }
  }

  /** What the last Analyze did: only append, reuse a rule, or create one. */
  datatype Kind = Append | Reuse | Create

  /** `n` is the node at position `p` of the ring and starts the digram `d` there. */
  ghost predicate StartsAt(ring: seq<Node>, root: seq<Symbol>, p: int, n: Node, d: Digram)
  {
    |ring| == |root| + 1 && 1 <= p < |root| && ring[p] == n && d == (root[p - 1], root[p])
  }

  /** Every index entry points at a live adjacent pair holding exactly the entry's two symbols. */
  ghost predicate IndexSound(ring: seq<Node>, root: seq<Symbol>, digrams: map<Digram, Node>) {
    forall d :: d in digrams ==> exists p :: StartsAt(ring, root, p, digrams[d], d)
  }

  ghost predicate Distinct(ring: seq<Node>) {
    forall i, j :: 0 <= i < j < |ring| ==> ring[i] != ring[j]
  }

  ghost function Members(ring: seq<Node>): set<Node> {
    set n | n in ring
  }

  lemma RingMembers(ring: seq<Node>)
    ensures forall i :: 0 <= i < |ring| ==> ring[i] in Members(ring)
  {
  }

  /** The index without the entries that point at one of `gone`. */
  ghost function Without(digrams: map<Digram, Node>, gone: set<Node>): map<Digram, Node> {
    map d | d in digrams && digrams[d] !in gone :: digrams[d]
  }

  /** A node of the ring can be indexed only under the digram it starts. */
  lemma EntriesAt(ring: seq<Node>, root: seq<Symbol>, digrams: map<Digram, Node>, p: int)
    requires IndexSound(ring, root, digrams) && Distinct(ring) && 0 <= p < |ring|
    ensures forall d :: d in digrams && digrams[d] == ring[p] ==>
      1 <= p < |root| && d == (root[p - 1], root[p])
  {
    forall d | d in digrams && digrams[d] == ring[p]
      ensures 1 <= p < |root| && d == (root[p - 1], root[p])
    {
      var q :| StartsAt(ring, root, q, digrams[d], d);
      assert p == q;
    }
  }

  /** Dropping a node's own digram, if the entry still points at it, forgets the node. */
  lemma DropOwnEntry(ring: seq<Node>, root: seq<Symbol>, digrams: map<Digram, Node>, p: int)
    requires IndexSound(ring, root, digrams) && Distinct(ring) && |ring| == |root| + 1 && 0 <= p < |ring|
    ensures !(1 <= p < |root|) ==> Without(digrams, {ring[p]}) == digrams
    ensures 1 <= p < |root| ==>
      var d := (root[p - 1], root[p]);
      Without(digrams, {ring[p]}) == if d in digrams && digrams[d] == ring[p] then digrams - {d} else digrams
    ensures IndexSound(ring, root, Without(digrams, {ring[p]}))
  {
    EntriesAt(ring, root, digrams, p);
    SubIndexSound(ring, root, digrams, {ring[p]});
  }

  lemma SubIndexSound(ring: seq<Node>, root: seq<Symbol>, digrams: map<Digram, Node>, gone: set<Node>)
    requires IndexSound(ring, root, digrams)
    ensures IndexSound(ring, root, Without(digrams, gone))
  {
    var rest := Without(digrams, gone);
    forall d | d in rest ensures exists q :: StartsAt(ring, root, q, rest[d], d) {
      var q :| StartsAt(ring, root, q, digrams[d], d);
    }
  }

  /** Every adjacent pair of the root is among `digrams`. */
  ghost predicate Complete(root: seq<Symbol>, digrams: set<Digram>) {
    forall p :: 1 <= p < |root| ==> (root[p - 1], root[p]) in digrams
  }

  /** Every indexed pair is indexed no later than any of its places, so at its first. */
  ghost predicate AtFirst(ring: seq<Node>, root: seq<Symbol>, digrams: map<Digram, Node>) {
    forall p :: 1 <= p < |root| && (root[p - 1], root[p]) in digrams ==>
      StartsBy(ring, root, digrams, p, (root[p - 1], root[p]))
  }

  ghost predicate StartsBy(ring: seq<Node>, root: seq<Symbol>, digrams: map<Digram, Node>, p: int, d: Digram) {
    d in digrams && exists q :: q <= p && StartsAt(ring, root, q, digrams[d], d)
  }

  lemma EmptyIsComplete(ring: seq<Node>, digrams: set<Digram>)
    ensures Complete([], digrams) && AtFirst(ring, [], map[])
  {
  }

  /** One more symbol, whose pair may be indexed already, moves no entry. */
  lemma AtFirstGrow(ring: seq<Node>, root: seq<Symbol>, digrams: map<Digram, Node>, n: Node, s: Symbol)
    requires IndexSound(ring, root, digrams) && |ring| == |root| + 1 && AtFirst(ring, root, digrams)
    ensures AtFirst(ring + [n], root + [s], digrams)
  {
    hide StartsAt;
    var ring', root' := ring + [n], root + [s];
    forall p | 1 <= p < |root'| && (root'[p - 1], root'[p]) in digrams
      ensures StartsBy(ring', root', digrams, p, (root'[p - 1], root'[p]))
    {
      var d := (root'[p - 1], root'[p]);
      var q: int;
      if p < |root| {
        assert StartsBy(ring, root, digrams, p, (root[p - 1], root[p]));
        q :| q <= p && StartsAt(ring, root, q, digrams[d], d);
      } else {
        q :| StartsAt(ring, root, q, digrams[d], d);
      }
      StartsGrow(ring, root, q, digrams[d], d, n, s);
    }
  }

  lemma StartsGrow(ring: seq<Node>, root: seq<Symbol>, q: int, node: Node, d: Digram, n: Node, s: Symbol)
    requires StartsAt(ring, root, q, node, d) && |ring| == |root| + 1
    ensures q < |root| && StartsAt(ring + [n], root + [s], q, node, d)
  {
  }

  /** Indexing the last pair, when it is not indexed yet, indexes it at its first place. */
  lemma AtFirstAdd(ring: seq<Node>, root: seq<Symbol>, digrams: map<Digram, Node>, known: set<Digram>)
    requires |ring| == |root| + 1 && 2 <= |root| && AtFirst(ring, root, digrams)
    requires Complete(root[..|root| - 1], digrams.Keys + known)
    requires (root[|root| - 2], root[|root| - 1]) !in digrams && (root[|root| - 2], root[|root| - 1]) !in known
    ensures AtFirst(ring, root, digrams[(root[|root| - 2], root[|root| - 1]) := ring[|root| - 1]])
  {
    var last := (root[|root| - 2], root[|root| - 1]);
    var more := digrams[last := ring[|root| - 1]];
    forall p | 1 <= p < |root| && (root[p - 1], root[p]) in more
      ensures StartsBy(ring, root, more, p, (root[p - 1], root[p]))
    {
      var d := (root[p - 1], root[p]);
      if p == |root| - 1 {
        assert StartsAt(ring, root, p, more[d], d);
      } else {
        var front := root[..|root| - 1];
        assert (front[p - 1], front[p]) in digrams.Keys + known;
        assert d != last ==> StartsBy(ring, root, digrams, p, d);
        var q :| q <= p && StartsAt(ring, root, q, digrams[d], d);
      }
    }
  }

  lemma IndexAdd(ring: seq<Node>, root: seq<Symbol>, digrams: map<Digram, Node>, p: int)
    requires IndexSound(ring, root, digrams) && |ring| == |root| + 1 && 1 <= p < |root|
    ensures IndexSound(ring, root, digrams[(root[p - 1], root[p]) := ring[p]])
  {
    var more := digrams[(root[p - 1], root[p]) := ring[p]];
    forall d | d in more ensures exists q :: StartsAt(ring, root, q, more[d], d) {
      if d == (root[p - 1], root[p]) {
        assert StartsAt(ring, root, p, ring[p], d);
      } else {
        var q :| StartsAt(ring, root, q, digrams[d], d);
      }
    }
  }

  lemma IndexGrow(ring: seq<Node>, root: seq<Symbol>, digrams: map<Digram, Node>, n: Node, s: Symbol)
    requires IndexSound(ring, root, digrams) && |ring| == |root| + 1
    ensures IndexSound(ring + [n], root + [s], digrams)
  {
    forall d | d in digrams ensures exists q :: StartsAt(ring + [n], root + [s], q, digrams[d], d) {
      var q :| StartsAt(ring, root, q, digrams[d], d);
      assert StartsAt(ring + [n], root + [s], q, digrams[d], d);
    }
  }

  lemma WithoutBoth(digrams: map<Digram, Node>, a: Node, b: Node)
    ensures Without(Without(digrams, {a}), {b}) == Without(digrams, {a, b})
  {
  }

  /** The root after the pair at position `p` gave way to one symbol. */
  function Merged(root: seq<Symbol>, p: int, s: Symbol): seq<Symbol>
    requires 1 <= p < |root|
  {
    root[..p - 1] + [s] + root[p + 1..]
  }

  /** The ring after the node following position `p` was unlinked. */
  function Unlinked(ring: seq<Node>, p: int): seq<Node>
    requires 0 <= p < |ring| - 1
  {
    ring[..p + 1] + ring[p + 2..]
  }

  lemma UnlinkedAt(ring: seq<Node>, p: int)
    requires 0 <= p < |ring| - 1
    ensures |Unlinked(ring, p)| == |ring| - 1
    ensures forall k {:trigger Unlinked(ring, p)[k]} :: 0 <= k <= p ==> Unlinked(ring, p)[k] == ring[k]
    ensures forall k {:trigger Unlinked(ring, p)[k]} :: p < k < |ring| - 1 ==> Unlinked(ring, p)[k] == ring[k + 1]
  {
  }

  lemma UnlinkedFacts(ring: seq<Node>, p: int)
    requires 0 <= p < |ring| - 1 && Distinct(ring)
    ensures |Unlinked(ring, p)| == |ring| - 1 && Members(Unlinked(ring, p)) <= Members(ring)
    ensures forall k {:trigger Unlinked(ring, p)[k]} :: 0 <= k <= p ==> Unlinked(ring, p)[k] == ring[k]
    ensures forall k {:trigger Unlinked(ring, p)[k]} :: p < k < |ring| - 1 ==> Unlinked(ring, p)[k] == ring[k + 1]
    ensures ring[p + 1] !in Unlinked(ring, p) && Distinct(Unlinked(ring, p))
  {
  }

  lemma MergedFacts(root: seq<Symbol>, p: int, s: Symbol)
    requires 1 <= p < |root|
    ensures |Merged(root, p, s)| == |root| - 1 && Merged(root, p, s)[p - 1] == s
    ensures forall k {:trigger Merged(root, p, s)[k]} :: 0 <= k < p - 1 ==> Merged(root, p, s)[k] == root[k]
    ensures forall k {:trigger Merged(root, p, s)[k]} :: p <= k < |root| - 1 ==> Merged(root, p, s)[k] == root[k + 1]
  {
  }

  /** Merging two separate pairs, the second at the end, leaves the new symbol in exactly two places. */
  lemma TwoMerges(ring: seq<Node>, root: seq<Symbol>, p: int, q: int, s: Symbol)
    requires |ring| == |root| + 1 && 1 <= q && q + 1 < p == |root| - 1
    ensures var root1, ring1 := Merged(root, q, s), Unlinked(ring, q);
      |root1| == p && |ring1| == p + 1 && ring1[p - 1] == ring[p] && ring1[p] == ring[p + 1] &&
      root1[p - 2] == root[p - 1] && root1[p - 1] == root[p]
    ensures var root2, ring2 := Merged(Merged(root, q, s), p - 1, s), Unlinked(Unlinked(ring, q), p - 1);
      |root2| == p - 1 && |ring2| == p && ring2[q] == ring[q] && ring2[p - 1] == ring[p] &&
      (s !in root ==> forall i :: 0 <= i < |root2| ==> (root2[i] == s <==> i == q - 1 || i == |root2| - 1))
  {
    hide Merged, Unlinked;
    MergedFacts(root, q, s);
    MergedFacts(Merged(root, q, s), p - 1, s);
    UnlinkedAt(ring, q);
    UnlinkedAt(Unlinked(ring, q), p - 1);
  }

  lemma IndexAfterMerge(ring: seq<Node>, root: seq<Symbol>, digrams: map<Digram, Node>, p: int, s: Symbol)
    requires IndexSound(ring, root, digrams) && Distinct(ring) && |ring| == |root| + 1 && 1 <= p < |root|
    ensures IndexSound(Unlinked(ring, p), Merged(root, p, s),
                       Without(digrams, {ring[p - 1], ring[p], ring[p + 1]}))
    ensures Distinct(Unlinked(ring, p))
  {
    var rest := Without(digrams, {ring[p - 1], ring[p], ring[p + 1]});
    var ring', root' := Unlinked(ring, p), Merged(root, p, s);
    forall d | d in rest ensures exists q :: StartsAt(ring', root', q, rest[d], d) {
      var q :| StartsAt(ring, root, q, digrams[d], d);
      assert q < p - 1 || q > p + 1;
      assert StartsAt(ring', root', if q < p then q else q - 1, rest[d], d);
    }
  }

  class Sequitur {
    var nextID: int
    var rules: Table
    var digrams: map<Digram, Node>
    var ruleByDigram: map<Digram, int>
    const sentinel: Node
    var length: int
    var lastKind: Kind

    ghost var ring: seq<Node>         // the sentinel, then the root nodes in order
    ghost var root: seq<Symbol>       // the symbols of the root nodes
    ghost var fed: seq<string>        // tokens fed since the last Sentence
    ghost var alphabet: set<string>   // every token ever fed
    ghost var appended: int           // how many tokens were ever fed
    ghost var dropped: int            // how many root symbols Sentence has dropped

    /** The root is a circular doubly linked list through the sentinel, spelling `root`. */
    ghost predicate RingOk()
      reads this`ring, this`root, ring
    {
      |ring| == |root| + 1 && ring[0] == sentinel && Distinct(ring) &&
      (forall i {:trigger ring[i].next} :: 0 <= i < |ring| - 1 ==> ring[i].next == ring[i + 1]) &&
      (forall i {:trigger ring[i].prev} :: 1 <= i < |ring| ==> ring[i].prev == ring[i - 1]) &&
      ring[|ring| - 1].next == sentinel && sentinel.prev == ring[|ring| - 1] &&
      (forall i {:trigger ring[i].val} :: 1 <= i < |ring| ==> ring[i].val == root[i - 1])
    }

    /** What holds at every step, also between the two halves of a replacement. */
    ghost predicate Core()
      reads this, ring
    {
      RingOk() && TableOk(rules, nextID, alphabet) && Inverse(rules, ruleByDigram) &&
      KnownAll(root, nextID, alphabet) &&
      IndexSound(ring, root, digrams) && length == |root| &&
      Acyclic(rules) && Flatten(rules, root) == fed && AlphabetOk(alphabet)
    }

    ghost predicate Balanced()
      reads this
    {
      appended == length + dropped + CountSum(rules, nextID)
    }

    ghost predicate Valid()
      reads this, ring
    {
      Core() && digrams.Keys !! ruleByDigram.Keys && Balanced()
    }

    /** The digram at position `p` has never been indexed nor made a rule. */
    ghost predicate FreshAt(p: int)
      reads this
    {
      1 <= p < |root| && (root[p - 1], root[p]) !in digrams && (root[p - 1], root[p]) !in ruleByDigram
    }

    /** The last pair of the root is indexed, so no rule covers it. */
    ghost predicate Settled()
      reads this`root, this`digrams
    {
      |root| >= 2 ==> (root[|root| - 2], root[|root| - 1]) in digrams
    }

    /**
      The index entry of the last pair is that pair itself or the pair overlapping it: no other indexed
      occurrence of it is waiting to be made a rule.
     */
    ghost predicate Sharp()
      reads this`root, this`digrams, this`ring
    {
      Settled() && (|root| >= 2 && |ring| == |root| + 1 ==>
        digrams[(root[|root| - 2], root[|root| - 1])] in {ring[|root| - 1], ring[|root| - 2]})
    }

    /** The pair at position `p` has an indexed occurrence that shares no node with it. */
    ghost predicate SeenApart(p: int)
      reads this
    {
      1 <= p < |root| && |ring| == |root| + 1 && (root[p - 1], root[p]) in digrams &&
      digrams[(root[p - 1], root[p])] !in {ring[p], ring[p - 1]}
    }

    /** The pairs on both sides of position `q` are indexed. */
    ghost predicate IndexedAround(q: int)
      reads this
    {
      (2 <= q <= |root| ==> (root[q - 2], root[q - 1]) in digrams) &&
      (1 <= q < |root| ==> (root[q - 1], root[q]) in digrams)
    }

    /** Nothing follows `n` in the root: it is the sentinel, the last node, or was removed. */
    ghost predicate Idle(n: Node)
      reads this, n
    {
      n == sentinel || n.next == null || n.next == sentinel
    }

    constructor ()
      ensures Valid() && fresh(ring) && root == [] && fed == [] && nextID == 1 && rules == map[] && alphabet == {}
      ensures appended == 0 && dropped == 0 && digrams == map[] && forall x :: x in Members(ring) ==> fresh(x)
    {
      var s := new Node(Terminal(""));
      s.next := s;
      s.prev := s;
      sentinel := s;
      nextID, rules, digrams, ruleByDigram := 1, map[], map[], map[];
      length, lastKind := 0, Append;
      ring, root, fed, alphabet := [s], [], [], {};
      appended, dropped := 0, 0;
    }

    method AppendNode(n: Node)
      requires RingOk() && n !in ring
      modifies this`ring, this`root, sentinel, sentinel.prev, n
      ensures RingOk() && ring == old(ring) + [n] && root == old(root) + [n.val] && n.val == old(n.val)
      ensures forall x :: x in old(ring) ==> x.val == old(x.val)
    {
      var last := sentinel.prev;
      assert last == ring[|ring| - 1];
      n.next := sentinel;
      n.prev := last;
      last.next := n;
      sentinel.prev := n;
      ring := ring + [n];
      root := root + [n.val];
    }

    /** Drops the index entries that start at `n` or at the node before it. */
    method ForgetNode(n: Node, ghost p: int)
      requires RingOk() && IndexSound(ring, root, digrams) && 1 <= p < |ring| && ring[p] == n
      modifies this`digrams
      ensures digrams == Without(old(digrams), {ring[p - 1], n})
    {
      hide IndexSound, Without, Distinct;
      SentinelIsFirst();
      DropOwnEntry(ring, root, digrams, p - 1);
      DropOwnEntry(ring, root, Without(digrams, {ring[p - 1]}), p);
      WithoutBoth(digrams, ring[p - 1], n);
      if n.prev != null && n.prev != sentinel {
        var key := (n.prev.val, n.val);
        if key in digrams && digrams[key] == n.prev {
          digrams := digrams - {key};
        }
      }
      if n.next != null && n.next != sentinel {
        var key := (n.val, n.next.val);
        if key in digrams && digrams[key] == n {
          digrams := digrams - {key};
        }
      }
    }

    /**
      Replaces the pair starting at `n` by a reference to rule `id`. The source's guard against a missing
      successor cannot fire: both nodes of the pair are in the ring.
     */
    method Substitute(n: Node, id: int, ghost p: int)
      requires Core() && 1 <= p < |root| && ring[p] == n
      requires id in rules && rules[id].body == [root[p - 1], root[p]]
      modifies this`digrams, this`ring, this`root, this`length, Members(ring)
      ensures Core()
      ensures ring == Unlinked(old(ring), p) && root == Merged(old(root), p, Ref(id))
      ensures |root| == |old(root)| - 1 && Members(ring) <= old(Members(ring))
      ensures old(ring)[p + 1] !in Members(ring) && old(ring)[p + 1].next == null && length == old(length) - 1
      ensures digrams == Without(old(digrams), {old(ring)[p - 1], n, old(ring)[p + 1]})
    {
      hide TableOk, Acyclic, Flatten, KnownAll, Inverse, IndexSound, RingOk, Merged, Unlinked, Without, Members;
      SubstituteOk(id, p);
      ForgetPair(n, p);
      Unlink(n, Ref(id), p);
      if length > 0 {
        length := length - 1;
      }
    }

    lemma SubstituteOk(id: int, p: int)
      requires Core() && 1 <= p < |root|
      requires id in rules && rules[id].body == [root[p - 1], root[p]]
      ensures RingOk() && |ring| == |root| + 1 && |Merged(root, p, Ref(id))| == |root| - 1
      ensures KnownAll(Merged(root, p, Ref(id)), nextID, alphabet) && Flatten(rules, Merged(root, p, Ref(id))) == fed
      ensures IndexSound(Unlinked(ring, p), Merged(root, p, Ref(id)),
                         Without(digrams, {ring[p - 1], ring[p], ring[p + 1]}))
      ensures Members(Unlinked(ring, p)) <= Members(ring) && ring[p + 1] !in Members(Unlinked(ring, p))
    {
      MergeKeepsMeaning(id, p);
      IndexAfterMerge(ring, root, digrams, p, Ref(id));
      UnlinkedFacts(ring, p);
    }

    /** Forgets `n` and the node after it. */
    method ForgetPair(n: Node, ghost p: int)
      requires RingOk() && IndexSound(ring, root, digrams) && 1 <= p < |root| && ring[p] == n
      modifies this`digrams
      ensures digrams == Without(old(digrams), {ring[p - 1], n, ring[p + 1]})
    {
      ForgetNode(n, p);
      SubIndexSound(ring, root, old(digrams), {ring[p - 1], n});
      assert n.next == ring[p + 1];
      ForgetNode(n.next, p + 1);
    }

    /** Gives `n` the value `val` and unlinks the node after it. */
    method Unlink(n: Node, val: Symbol, ghost p: int)
      requires RingOk() && 1 <= p < |root| && ring[p] == n
      modifies this`ring, this`root, Members(ring)
      ensures RingOk() && ring == Unlinked(old(ring), p) && root == Merged(old(root), p, val)
      ensures old(ring)[p + 1].next == null
    {
      hide Merged, Unlinked, Members;
      RingMembers(ring);
      UnlinkedFacts(ring, p);
      MergedFacts(root, p, val);
      var victim := n.next;
      assert victim == ring[p + 1] && victim.next == if p + 2 < |ring| then ring[p + 2] else sentinel;
      n.val := val;
      n.next := victim.next;
      victim.next.prev := n;
      victim.prev := null;
      victim.next := null;
      ring := Unlinked(ring, p);
      root := Merged(root, p, val);
    }

    lemma MergeKeepsMeaning(id: int, p: int)
      requires Core() && 1 <= p < |root|
      requires id in rules && rules[id].body == [root[p - 1], root[p]]
      ensures Flatten(rules, Merged(root, p, Ref(id))) == fed
      ensures KnownAll(Merged(root, p, Ref(id)), nextID, alphabet)
    {
      hide Flatten, TableOk, IndexSound, Inverse, AlphabetOk, RingOk, Acyclic;
      IdsAreDense(id);
      SubstitutionIsLossless(rules, root[..p - 1], id, root[p + 1..]);
      assert root == root[..p - 1] + rules[id].body + root[p + 1..];
    }

    /** Rule `id` occurs in the root at positions `q` and last only, and nothing is indexed under it. */
    ghost predicate Newborn(id: int, q: int)
      reads this
    {
      1 <= q < |root| &&
      (forall i :: 0 <= i < |root| ==> (root[i] == Ref(id) <==> i == q - 1 || i == |root| - 1)) &&
      (forall d :: d in digrams || d in ruleByDigram ==> d.0 != Ref(id) && d.1 != Ref(id))
    }

    /**
      Tests the digram starting at `n`. It is called on the pair at the end of the root, on a pair
      holding a rule made just now, or on a node that nothing follows. Only the first can replace.
     */
    method Check(n: Node, ghost p: int) returns (r: Option<int>)
      requires Valid()
      requires Idle(n) || (1 <= p < |root| && ring[p] == n && (p == |root| - 1 || FreshAt(p)))
      modifies this`nextID, this`rules, this`digrams, this`ruleByDigram, this`length, this`lastKind,
               this`ring, this`root, Members(ring)
      ensures Valid()
      ensures r.None? ==> ring == old(ring) && root == old(root) && lastKind == old(lastKind)
      ensures r.None? ==> rules == old(rules) && nextID == old(nextID) && ruleByDigram == old(ruleByDigram)
      ensures r.None? ==> old(digrams).Keys <= digrams.Keys
      ensures r.Some? ==> r.value in rules && |root| < |old(root)|
      ensures !old(Idle(n)) && p == |old(root)| - 1 ==> Sharp()
      ensures !old(Idle(n)) && p == |old(root)| - 1 ==>
        var d := (old(root)[p - 1], old(root)[p]);
        r == if d in old(ruleByDigram) then Some(old(ruleByDigram)[d])
             else if old(SeenApart(p)) then Some(old(nextID)) else None
      ensures old(Idle(n)) ==> r.None? && digrams == old(digrams)
      ensures !old(Idle(n)) && old(FreshAt(p)) ==>
        r.None? && digrams == old(digrams)[(old(root)[p - 1], old(root)[p]) := n]
      ensures |ring| <= |old(ring)| && Members(ring) <= old(Members(ring))
      ensures ring[|ring| - 1] == old(ring[|ring| - 1]) || old(ring[|ring| - 1]).next == null
      ensures r.Some? ==> lastKind != Append
      ensures nextID >= old(nextID) && (lastKind == Create <==> old(lastKind) == Create || nextID > old(nextID))
      ensures SameBodies(old(rules), rules)
      decreases |ring|, 1
    {
      hide TableOk, Acyclic, Flatten, CountSum, KnownAll;
      if n == sentinel || n.next == null || n.next == sentinel {
        return None;
      }
      var digram := (n.val, n.next.val);
      assert digram == (root[p - 1], root[p]);

      if digram in ruleByDigram {
        var id := ruleByDigram[digram];
        if id in rules {
          Reuse(n, id, p);
          return Some(id);
        }
      }

      if digram in digrams {
        var earlier := digrams[digram];
        ghost var q :| StartsAt(ring, root, q, earlier, digram);
        assert earlier.next == ring[q + 1] && earlier.val == root[q - 1] && ring[q + 1].val == root[q];
        if earlier.next != null && earlier.val == digram.0 && earlier.next.val == digram.1 {
          if earlier == n || earlier.next == n || earlier.next == n.next {
            return None;
          }
          var id := Reduce(n, earlier, digram, p, q);
          return Some(id);
        }
      }

      IndexAdd(ring, root, digrams, p);
      digrams := digrams[digram := n];
      return None;
    }

    /** Replaces the last pair of the root by the rule that already covers it. */
    method Reuse(n: Node, id: int, ghost p: int)
      requires Valid() && 1 <= p == |root| - 1 && ring[p] == n
      requires id in rules && rules[id].body == [root[p - 1], root[p]]
      modifies this`nextID, this`rules, this`digrams, this`ruleByDigram, this`length, this`lastKind,
               this`ring, this`root, Members(ring)
      ensures Valid() && lastKind != Append && Sharp() && |root| < |old(root)| && id in rules
      ensures |ring| <= |old(ring)| && Members(ring) <= old(Members(ring))
      ensures old(ring[|ring| - 1]).next == null
      ensures nextID >= old(nextID) && (lastKind == Create <==> old(lastKind) == Create || nextID > old(nextID))
      ensures SameBodies(old(rules), rules)
      decreases |ring|, 0
    {
      hide TableOk, Acyclic, Flatten, CountSum, KnownAll, Inverse, IndexSound, Distinct, Members;
      IdsAreDense(id);
      CountUse(id);
      Substitute(n, id, p);
      if lastKind != Create {
        lastKind := Kind.Reuse;
      }
      CheckAdjacencies(n, n, |root|, id);
      IdsAreDense(id);
    }

    /** Counts one more use of rule `id`. */
    method CountUse(id: int)
      requires Core() && id in rules
      modifies this`rules
      ensures Core() && rules == old(rules)[id := old(rules)[id].(count := old(rules)[id].count + 1)]
      ensures CountSum(rules, nextID) == old(CountSum(rules, nextID)) + 1
    {
      ghost var before := rules;
      BumpCount(rules, nextID, alphabet, ruleByDigram, id);
      rules := rules[id := rules[id].(count := rules[id].count + 1)];
      FlattenFrame(before, rules, nextID, alphabet, root);
    }

    /** Adds the rule for a digram that has none, before any occurrence is replaced. */
    method Mint(d: Digram) returns (id: int)
      requires Core() && d !in ruleByDigram && d.0 in root && d.1 in root
      modifies this`nextID, this`rules, this`ruleByDigram, this`lastKind
      ensures Core() && id == old(nextID) && nextID == id + 1 && lastKind == Create
      ensures rules == old(rules)[id := Rule(id, 2, [d.0, d.1])] && ruleByDigram == old(ruleByDigram)[d := id]
      ensures CountSum(rules, nextID) == old(CountSum(rules, nextID)) + 2
    {
      hide Flatten, CountSum, RingOk, Inverse, TableOk, Acyclic, IndexSound, KnownAll, SameBodies;
      MintReady(d);
      AddRule(rules, nextID, alphabet, ruleByDigram, d);
      id := nextID;
      nextID := nextID + 1;
      rules := rules[id := Rule(id, 2, [d.0, d.1])];
      ruleByDigram := ruleByDigram[d := id];
      lastKind := Create;
    }

    lemma MintReady(d: Digram)
      requires Core() && d !in ruleByDigram && d.0 in root && d.1 in root
      ensures Known(d.0, nextID, alphabet) && Known(d.1, nextID, alphabet) && KnownAll(root, nextID + 1, alphabet)
      ensures var more := rules[nextID := Rule(nextID, 2, [d.0, d.1])];
        Acyclic(more) && Flatten(more, root) == fed
    {
      AddRule(rules, nextID, alphabet, ruleByDigram, d);
      FlattenFrame(rules, rules[nextID := Rule(nextID, 2, [d.0, d.1])], nextID, alphabet, root);
    }

    /** Makes a rule of a digram seen twice and replaces both occurrences. They never overlap. */
    method Reduce(newOccur: Node, firstOccur: Node, d: Digram, ghost p: int, ghost q: int) returns (id: int)
      requires Valid() && 1 <= p == |root| - 1 && ring[p] == newOccur && d == (root[p - 1], root[p])
      requires StartsAt(ring, root, q, firstOccur, d) && q + 1 < p
      requires d in digrams && digrams[d] == firstOccur && d !in ruleByDigram
      modifies this`nextID, this`rules, this`digrams, this`ruleByDigram, this`length, this`lastKind,
               this`ring, this`root, Members(ring)
      ensures Valid() && lastKind == Create && id == old(nextID) < nextID && id in rules
      ensures Sharp() && |root| < |old(root)|
      ensures |ring| <= |old(ring)| && Members(ring) <= old(Members(ring))
      ensures old(ring[|ring| - 1]).next == null
      ensures SameBodies(old(rules), rules)
      decreases |ring|, 0
    {
      hide Inverse, Acyclic, Flatten, CountSum, IndexSound, TableOk, KnownAll, Known, Newborn;
      id := Replace(newOccur, firstOccur, d, p, q);
      IdsAreDense(id);
      CheckAdjacencies(firstOccur, newOccur, q, id);
      IdsAreDense(id);
    }

    /** Replaces an earlier pair and the last pair of the root. */
    method SubstituteTwice(firstOccur: Node, newOccur: Node, id: int, ghost p: int, ghost q: int)
      requires Core() && 1 <= q && q + 1 < p == |root| - 1 && ring[p] == newOccur && ring[q] == firstOccur
      requires id in rules && rules[id].body == [root[p - 1], root[p]] == [root[q - 1], root[q]]
      modifies this`digrams, this`ring, this`root, this`length, Members(ring)
      ensures Core() && Members(ring) <= old(Members(ring)) && length == old(length) - 2
      ensures |Unlinked(old(ring), q)| > p && ring == Unlinked(Unlinked(old(ring), q), p - 1)
      ensures |Merged(old(root), q, Ref(id))| == p && root == Merged(Merged(old(root), q, Ref(id)), p - 1, Ref(id))
      ensures old(ring)[p + 1] !in Members(ring) && old(ring)[p + 1].next == null
      ensures digrams.Keys <= old(digrams.Keys)
      ensures forall d :: d in digrams ==> digrams[d] == old(digrams)[d] != firstOccur
    {
      hide Inverse, Acyclic, Flatten, CountSum, IndexSound, TableOk, Distinct, KnownAll, Merged, Unlinked, Members;
      TwoMerges(ring, root, p, q, Ref(id));
      Substitute(firstOccur, id, q);
      Substitute(newOccur, id, p - 1);
    }

    lemma ReplaceReady(p: int, q: int)
      requires Core() && 1 <= q && q + 1 < p == |root| - 1
      ensures |ring| == |root| + 1
      ensures forall d :: d in digrams || d in ruleByDigram ==> d.0 != Ref(nextID) && d.1 != Ref(nextID)
      ensures root[p - 1] != Ref(nextID) && root[p] != Ref(nextID) && ring[p] != ring[q]
      ensures var root1, ring1 := Merged(root, q, Ref(nextID)), Unlinked(ring, q);
        |root1| == p && |ring1| == p + 1 && ring1[p - 1] == ring[p] && ring1[p] == ring[p + 1] &&
        root1[p - 2] == root[p - 1] && root1[p - 1] == root[p] &&
        var root2, ring2 := Merged(root1, p - 1, Ref(nextID)), Unlinked(ring1, p - 1);
        |root2| == p - 1 && |ring2| == p && ring2[q] == ring[q] && ring2[p - 1] == ring[p] &&
        forall i :: 0 <= i < |root2| ==> (root2[i] == Ref(nextID) <==> i == q - 1 || i == |root2| - 1)
    {
      NothingMentions();
      TwoMerges(ring, root, p, q, Ref(nextID));
    }

    method Replace(newOccur: Node, firstOccur: Node, d: Digram, ghost p: int, ghost q: int) returns (id: int)
      requires Valid() && 1 <= p == |root| - 1 && ring[p] == newOccur && d == (root[p - 1], root[p])
      requires StartsAt(ring, root, q, firstOccur, d) && q + 1 < p
      requires d in digrams && digrams[d] == firstOccur && d !in ruleByDigram
      modifies this`nextID, this`rules, this`digrams, this`ruleByDigram, this`length, this`lastKind,
               this`ring, this`root, Members(ring)
      ensures Valid() && lastKind == Create && nextID == old(nextID) + 1 == id + 1 && id in rules
      ensures |ring| == |old(ring)| - 2 && Members(ring) <= old(Members(ring))
      ensures old(ring[|ring| - 1]) !in Members(ring) && old(ring[|ring| - 1]).next == null
      ensures ring[q] == firstOccur != newOccur == ring[|root|] && Newborn(id, q)
      ensures SameBodies(old(rules), rules)
    {
      hide Inverse, Acyclic, Flatten, CountSum, IndexSound, TableOk, RingOk, Distinct, KnownAll, Merged, Unlinked,
        Members;
      ReplaceReady(p, q);
      IdsAreDense(nextID);
      id := Mint(d);
      SubstituteTwice(firstOccur, newOccur, id, p, q);
      assert digrams - {d} == digrams;
      digrams := digrams - {d};
    }

    /** No index key, rule body or root symbol refers to the next rule id. */
    lemma NothingMentions()
      requires Core()
      ensures forall d :: d in digrams || d in ruleByDigram ==> d.0 != Ref(nextID) && d.1 != Ref(nextID)
      ensures forall i :: 0 <= i < |root| ==> root[i] != Ref(nextID)
    {
      forall d | d in digrams ensures d.0 != Ref(nextID) && d.1 != Ref(nextID) {
        var q :| StartsAt(ring, root, q, digrams[d], d);
      }
      forall d | d in ruleByDigram ensures d.0 != Ref(nextID) && d.1 != Ref(nextID) {
        var id := ruleByDigram[d];
        assert RuleOk(rules[id], id, alphabet) && rules[id].body == [d.0, d.1];
      }
    }

    /** Rechecks the pairs around one or two replaced nodes. */
    method CheckAdjacencies(a: Node, b: Node, ghost q: int, ghost id: int)
      requires Valid() && 1 <= q <= |root| && ring[q] == a && ring[|root|] == b
      requires (a == b && q == |root|) || (a != b && Newborn(id, q))
      modifies this`nextID, this`rules, this`digrams, this`ruleByDigram, this`length, this`lastKind,
               this`ring, this`root, Members(ring)
      ensures Valid()
      ensures |ring| <= |old(ring)| && Members(ring) <= old(Members(ring))
      ensures Sharp() && |root| <= |old(root)| && (root == old(root) ==> IndexedAround(q) && IndexedAround(|root|))
      ensures old(lastKind) != Append ==> lastKind != Append
      ensures nextID >= old(nextID) && (lastKind == Create <==> old(lastKind) == Create || nextID > old(nextID))
      ensures SameBodies(old(rules), rules)
      decreases |ring|, 3
    {
      hide TableOk, Inverse, Acyclic, IndexSound, Flatten, CountSum, KnownAll, Balanced, Distinct, Members, RingOk,
        Newborn;
      assert Newborn(id, q) ==> q < |root| by { NewbornIsEarlier(id, q); }
      CheckAround(a, q, id);
      if b != a {
        CheckAround(b, |root|, id);
      }
    }

    lemma NewbornIsEarlier(id: int, q: int)
      ensures Newborn(id, q) ==> q < |root|
    {
    }

    /** Rechecks the pairs on both sides of one node: the last one, or the earlier place of a new rule. */
    method CheckAround(a: Node, ghost q: int, ghost id: int)
      requires Valid() && 1 <= q <= |root| && ring[q] == a && (q == |root| || Newborn(id, q))
      modifies this`nextID, this`rules, this`digrams, this`ruleByDigram, this`length, this`lastKind,
               this`ring, this`root, Members(ring)
      ensures Valid() && |ring| <= |old(ring)| && |root| <= |old(root)| && Members(ring) <= old(Members(ring))
      ensures q == |old(root)| ==> Sharp()
      ensures root == old(root) ==> IndexedAround(q) && old(digrams).Keys <= digrams.Keys
      ensures q < |old(root)| ==> root == old(root) && ring == old(ring)
      ensures old(lastKind) != Append ==> lastKind != Append
      ensures nextID >= old(nextID) && (lastKind == Create <==> old(lastKind) == Create || nextID > old(nextID))
      ensures SameBodies(old(rules), rules)
      decreases |ring|, 2
    {
      hide TableOk, Inverse, Acyclic, IndexSound, Flatten, CountSum, KnownAll, Balanced, Distinct, Members;
      SentinelIsFirst();
      assert a.prev == ring[q - 1];
      if a.prev != null && a.prev != sentinel {
        var _ := Check(a.prev, q - 1);
      }
      var _ := Check(a, q);
    }

    lemma SentinelIsFirst()
      requires RingOk()
      ensures forall i :: 1 <= i < |ring| ==> ring[i] != sentinel
    {
    }

    /** The rules are exactly those with ids from 1 up to the next id. */
    lemma IdsAreDense(id: int)
      requires Core()
      ensures id in rules <==> 1 <= id < nextID
    {
    }

    // -------------------------------------------------------------- feeding

    /** Appends one known symbol to the root, before any digram is checked. */
    method AppendSymbol(s: Symbol) returns (n: Node)
      requires Valid() && Known(s, nextID, alphabet)
      modifies this`length, this`ring, this`root, this`fed, this`appended, Members(ring)
      ensures Valid() && fresh(n) && ring == old(ring) + [n] && root == old(root) + [s]
      ensures fed == old(fed) + Expand(rules, s) && appended == old(appended) + 1
      ensures Members(ring) == old(Members(ring)) + {n}
    {
      hide TableOk, Inverse, Acyclic, IndexSound, Flatten, CountSum, KnownAll, Distinct, Members, AlphabetOk, Known,
        Expand;
      n := new Node(s);
      AppendReady(n, s);
      AppendNode(n);
      length := length + 1;
      fed, appended := fed + Expand(rules, s), appended + 1;
    }

    lemma AppendReady(n: Node, s: Symbol)
      requires Core() && Known(s, nextID, alphabet)
      ensures KnownAll(root + [s], nextID, alphabet)
      ensures Flatten(rules, root + [s]) == fed + Expand(rules, s)
      ensures IndexSound(ring + [n], root + [s], digrams)
      ensures sentinel in Members(ring) && ring[|ring| - 1] in Members(ring)
      ensures Members(ring + [n]) == Members(ring) + {n}
    {
      var root' := root + [s];
      assert root'[..|root'| - 1] == root;
      IndexGrow(ring, root, digrams, n, s);
    }

    /** Appends one token to the root. */
    method AppendToken(token: string) returns (n: Node)
      requires Valid() && token != "" && RuleID(token).None?
      modifies this`length, this`ring, this`root, this`fed, this`alphabet, this`appended, Members(ring)
      ensures Valid() && fresh(n) && ring == old(ring) + [n] && root == old(root) + [Terminal(token)]
      ensures fed == old(fed) + [token] && alphabet == old(alphabet) + {token} && appended == old(appended) + 1
      ensures Members(ring) == old(Members(ring)) + {n}
    {
      hide Inverse, Acyclic, IndexSound, Flatten, CountSum, KnownAll, TableOk, Distinct, Members, AlphabetOk, RuleID;
      LargerAlphabet(token);
      alphabet := alphabet + {token};
      n := AppendSymbol(DecodeRaw(token));
    }

    lemma LargerAlphabet(token: string)
      requires Core() && token != "" && RuleID(token).None?
      ensures AlphabetOk(alphabet + {token}) && TableOk(rules, nextID, alphabet + {token})
      ensures KnownAll(root, nextID, alphabet + {token})
    {
      forall id | id in rules ensures RuleOk(rules[id], id, alphabet + {token}) {
      }
    }

    /**
      The rule a token completes: the one that covers its pair with the last symbol, or a new one when an
      indexed occurrence of that pair shares no node with it.
     */
    ghost function RuleFor(token: string): Option<int>
      reads this`root, this`ring, this`ruleByDigram, this`digrams, this`nextID
    {
      if root == [] || |ring| != |root| + 1 then None
      else
        var d := (root[|root| - 1], Terminal(token));
        if d in ruleByDigram then Some(ruleByDigram[d])
        else if d in digrams && digrams[d] !in {ring[|root|], ring[|root| - 1]} then Some(nextID)
        else None
    }

    /** Appends one token and checks the pair it completes. */
    method Feed(token: string) returns (rule: Option<int>)
      requires Valid() && token != "" && RuleID(token).None?
      modifies this, Members(ring)
      ensures Valid() && forall x :: x in Members(ring) ==> x in old(Members(ring)) || fresh(x)
      ensures fed == old(fed) + [token] && alphabet == old(alphabet) + {token} && appended == old(appended) + 1
      ensures dropped == old(dropped) && nextID >= old(nextID) && Sharp() && Settled()
      ensures rule.None? ==> lastKind == old(lastKind) && rules == old(rules) && root == old(root) + [Terminal(token)]
      ensures rule.Some? ==> lastKind != Append && rule.value in rules
      ensures rule == old(RuleFor(token))
      ensures lastKind == Create <==> old(lastKind) == Create || nextID > old(nextID)
      ensures SameBodies(old(rules), rules)
    {
      hide TableOk, Inverse, Acyclic, IndexSound, Flatten, CountSum, KnownAll, Distinct, Members, AlphabetOk, RuleID,
        Balanced;
      assert |ring| == |root| + 1;
      var node := AppendToken(token);
      assert node.prev == ring[|root| - 1];
      rule := Check(node.prev, |root| - 1);
    }

    method ForgetKind()
      requires Valid()
      modifies this`lastKind
      ensures Valid() && lastKind == Append
    {
      lastKind := Append;
    }

    /** Feeds tokens to the grammar; empty tokens are skipped. */
    method Analyze(tokens: seq<string>) returns (created: Option<int>)
      requires Valid()
      requires forall i :: 0 <= i < |tokens| ==> RuleID(tokens[i]).None?
      modifies this, Members(ring)
      ensures Valid() && forall x :: x in Members(ring) ==> x in old(Members(ring)) || fresh(x)
      ensures fed == old(fed) + NonEmpty(tokens) && appended == old(appended) + |NonEmpty(tokens)|
      ensures alphabet == old(alphabet) + (set i | 0 <= i < |tokens| && tokens[i] != "" :: tokens[i])
      ensures dropped == old(dropped) && nextID >= old(nextID)
      ensures old(Sharp()) || NonEmpty(tokens) != [] ==> Sharp()
      ensures old(Settled()) || NonEmpty(tokens) != [] ==> Settled()
      ensures created.Some? <==> lastKind != Append
      ensures created.Some? ==> created.value in rules
      ensures |tokens| == 1 && tokens[0] != "" ==> created == old(RuleFor(tokens[0]))
      ensures lastKind == Create <==> nextID > old(nextID)
      ensures created.None? ==> rules == old(rules) && root == old(root) + Terminals(NonEmpty(tokens))
      ensures SameBodies(old(rules), rules)
    {
      hide Valid, Members, RuleID, Sharp, Settled, RuleFor;
      ForgetKind();
      created := None;
      for i := 0 to |tokens|
        invariant Valid() && forall x :: x in Members(ring) ==> x in old(Members(ring)) || fresh(x)
        invariant fed == old(fed) + NonEmpty(tokens[..i]) && appended == old(appended) + |NonEmpty(tokens[..i])|
        invariant alphabet == old(alphabet) + (set k | 0 <= k < i && tokens[k] != "" :: tokens[k])
        invariant dropped == old(dropped) && nextID >= old(nextID)
        invariant old(Sharp()) || NonEmpty(tokens[..i]) != [] ==> Sharp()
        invariant old(Settled()) || NonEmpty(tokens[..i]) != [] ==> Settled()
        invariant created.Some? <==> lastKind != Append
        invariant created.Some? ==> created.value in rules
        invariant i == 0 && tokens != [] ==> created.None? && RuleFor(tokens[0]) == old(RuleFor(tokens[0]))
        invariant i == 1 && tokens[0] != "" ==> created == old(RuleFor(tokens[0]))
        invariant lastKind == Create <==> nextID > old(nextID)
        invariant created.None? ==> rules == old(rules) && root == old(root) + Terminals(NonEmpty(tokens[..i]))
        invariant SameBodies(old(rules), rules)
      {
        assert tokens[..i + 1][..i] == tokens[..i];
        if tokens[i] == "" {
          continue;
        }
        var rule := Feed(tokens[i]);
        if rule.Some? {
          created := rule;
        }
      }
      assert tokens[..|tokens|] == tokens;
    }

    /** Drops the root and keeps the rules. */
    method Sentence()
      requires Valid()
      modifies this`digrams, this`length, this`lastKind, this`ring, this`root, this`fed, this`dropped, sentinel
      ensures Valid() && Settled() && root == [] && fed == [] && Members(ring) <= old(Members(ring)) && length == 0
      ensures dropped == old(dropped) + old(length) && digrams == map[] && lastKind == Append
    {
      hide TableOk, Inverse, Acyclic, CountSum, AlphabetOk, KnownAll, Flatten, IndexSound, Distinct;
      EmptyRootIsSound();
      sentinel.next := sentinel;
      sentinel.prev := sentinel;
      digrams := map[];
      dropped := dropped + length;
      length := 0;
      lastKind := Append;
      ring, root, fed := [sentinel], [], [];
    }

    lemma EmptyRootIsSound()
      requires Acyclic(rules)
      ensures Flatten(rules, []) == [] && KnownAll([], nextID, alphabet)
      ensures IndexSound([sentinel], [], map[]) && Distinct([sentinel])
    {
    }

    // -------------------------------------------------------------- reading

    /** The last `n` root symbols as display strings, oldest first. */
    method Tail(n: int) returns (out: seq<string>)
      requires Valid()
      ensures n <= 0 ==> out == []
      ensures n > 0 ==> out == DisplayAll(root[if n < |root| then |root| - n else 0..])
    {
      hide TableOk, Inverse, Acyclic, IndexSound, Flatten, CountSum, KnownAll, AlphabetOk, Balanced;
      if n <= 0 || length == 0 {
        return [];
      }
      var m := if n > length then length else n;
      var collect: seq<Symbol> := [];
      var current := sentinel.prev;
      var i := 0;
      while i < m && current != sentinel && current != null
        invariant 0 <= i <= m && |collect| == i && current == ring[|root| - i]
        invariant forall k :: 0 <= k < i ==> collect[k] == root[|root| - 1 - k]
      {
        collect := collect + [current.val];
        current := current.prev;
        i := i + 1;
      }
      out := [];
      for j := |collect| downto 0
        invariant |out| == |collect| - j
        invariant forall k :: 0 <= k < |out| ==> out[k] == Display(collect[|collect| - 1 - k])
      {
        out := out + [Display(collect[j])];
      }
    }

    /** The whole root as display strings. */
    method RootSequence() returns (out: seq<string>)
      requires Valid()
      ensures out == DisplayAll(root)
    {
      hide TableOk, Inverse, Acyclic, IndexSound, Flatten, CountSum, KnownAll, AlphabetOk, Balanced;
      out := [];
      var node := sentinel.next;
      ghost var i := 1;
      while node != null && node != sentinel
        invariant 1 <= i <= |ring| && node == if i < |ring| then ring[i] else sentinel
        invariant out == DisplayAll(root[..i - 1])
        decreases |ring| - i
      {
        out := out + [Display(node.val)];
        node := node.next;
        i := i + 1;
      }
      assert root[..i - 1] == root;
    }

    /** The depth of a rule by recursive descent, with a guard against cycles; any table will do. */
    method RuleDepth(id: int, stack: set<int>) returns (depth: nat)
      ensures depth == GuardedDepth(rules, id, stack)
      decreases |rules.Keys - stack|
    {
      if id in stack || id !in rules {
        return 1;
      }
      var inner, body := stack + {id}, rules[id].body;
      SmallerSet(rules.Keys - inner, rules.Keys - stack);
      depth := 1;
      for i := 0 to |body|
        invariant depth == GuardedBodyDepth(rules, body[..i], inner)
      {
        assert body[..i + 1][..i] == body[..i];
        if body[i].Ref? {
          var nested := RuleDepth(body[i].id, inner);
          if 1 + nested > depth {
            depth := 1 + nested;
          }
        }
      }
      assert body[..|body|] == body;
    }

    /** The terminals a rule stands for, by recursive descent. */
    method CollectTerminalNames(id: int) returns (names: seq<string>)
      requires Valid() && id in rules
      ensures names == Expand(rules, Ref(id))
      decreases id
    {
      hide IndexSound, Inverse, CountSum, AlphabetOk, RingOk, KnownAll;
      var body := rules[id].body;
      assert RuleOk(rules[id], id, alphabet);
      names := [];
      for i := 0 to |body|
        invariant names == Flatten(rules, body[..i])
      {
        assert body[..i + 1][..i] == body[..i];
        if body[i].Ref? {
          if body[i].id in rules {
            var nested := CollectTerminalNames(body[i].id);
            names := names + nested;
          }
        } else {
          names := names + [body[i].text];
        }
      }
      assert body[..|body|] == body;
      FlattenBody(rules, id);
    }

    /** Every rule with its id, use count, true depth, symbols and terminals, in increasing order of id. */
    method RuleViews() returns (views: seq<RuleView>)
      requires Valid()
      ensures ViewsOf(rules, nextID, views)
    {
      hide IndexSound, Inverse, CountSum, AlphabetOk, RingOk, KnownAll, Flatten, Balanced;
      views := [];
      for id := 1 to nextID
        invariant |views| == id - 1
        invariant forall i :: 0 <= i < |views| ==> i + 1 in rules && views[i] == ViewOf(rules, i + 1)
      {
        var depth := RuleDepth(id, {});
        CycleGuardNeverFires(rules, nextID, alphabet, id, {});
        var terminals := CollectTerminalNames(id);
        views := views + [RuleView(id, rules[id].count, depth, DisplayAll(rules[id].body), terminals)];
      }
    }

    // ------------------------------------------------------------ restoring

    /** Copies one saved rule into the table. */
    method Learn(id: int, count: int, symbols: seq<string>)
      modifies this`rules, this`ruleByDigram, this`nextID
      ensures id <= 0 || symbols == [] ==>
        rules == old(rules) && ruleByDigram == old(ruleByDigram) && nextID == old(nextID)
      ensures id > 0 && symbols != [] && id in old(rules) ==>
        rules == old(rules)[id := old(rules)[id].(count := MaxInt(count, old(rules)[id].count))] &&
        ruleByDigram == old(ruleByDigram) && nextID == old(nextID)
      ensures id > 0 && symbols != [] && id !in old(rules) ==>
        rules == old(rules)[id := Rule(id, if count < 2 then 2 else count, ParseAll(symbols))] &&
        ruleByDigram == (if |symbols| == 2
                         then old(ruleByDigram)[(ParseDisplay(symbols[0]), ParseDisplay(symbols[1])) := id]
                         else old(ruleByDigram)) &&
        nextID == if id >= old(nextID) then id + 1 else old(nextID)
    {
      if id <= 0 || symbols == [] {
        return;
      }
      if id in rules {
        if count > rules[id].count {
          rules := rules[id := rules[id].(count := count)];
        }
        assert rules == old(rules)[id := rules[id]];
        return;
      }
      var body: seq<Symbol> := [];
      for i := 0 to |symbols|
        invariant body == ParseAll(symbols[..i])
      {
        body := body + [ParseDisplay(symbols[i])];
      }
      assert symbols[..|symbols|] == symbols;
      rules := rules[id := Rule(id, if count < 2 then 2 else count, body)];
      if |symbols| == 2 {
        ruleByDigram := ruleByDigram[(body[0], body[1]) := id];
      }
      if id >= nextID {
        nextID := id + 1;
      }
    }

    /** Installs a saved root without discovering rules, indexing each unruled digram at its first place. */
    method RestoreRoot(symbols: seq<string>)
      requires Valid()
      requires forall i :: 0 <= i < |symbols| && symbols[i] != "" ==> Known(ParseDisplay(symbols[i]), nextID, alphabet)
      modifies this`digrams, this`length, this`lastKind, this`ring, this`root, this`fed, this`dropped, this`appended,
               Members(ring)
      ensures Valid() && root == ParseAll(NonEmpty(symbols))
      ensures forall x :: x in Members(ring) ==> x in old(Members(ring)) || fresh(x)
      ensures Complete(root, digrams.Keys + ruleByDigram.Keys) && AtFirst(ring, root, digrams)
    {
      hide TableOk, Inverse, Acyclic, IndexSound, Flatten, CountSum, KnownAll, Distinct, AlphabetOk, Known, Members,
        ParseDisplay, Balanced, Complete, Settled, AtFirst;
      RingMembers(ring);
      Sentence();
      EmptyIsComplete(ring, digrams.Keys + ruleByDigram.Keys);
      var prev: Node? := null;
      for i := 0 to |symbols|
        invariant Valid() && root == ParseAll(NonEmpty(symbols[..i]))
        invariant forall x :: x in Members(ring) ==> x in old(Members(ring)) || fresh(x)
        invariant prev == if root == [] then null else ring[|root|]
        invariant Complete(root, digrams.Keys + ruleByDigram.Keys) && AtFirst(ring, root, digrams)
      {
        assert symbols[..i + 1][..i] == symbols[..i];
        if symbols[i] == "" {
          continue;
        }
        prev := RestoreSymbol(ParseDisplay(symbols[i]), prev);
      }
      assert symbols[..|symbols|] == symbols;
    }

    /** Appends one saved symbol and indexes the pair it completes. */
    method RestoreSymbol(s: Symbol, prev: Node?) returns (node: Node)
      requires Valid() && Known(s, nextID, alphabet)
      requires Complete(root, digrams.Keys + ruleByDigram.Keys) && AtFirst(ring, root, digrams)
      requires prev == if root == [] then null else ring[|root|]
      modifies this`digrams, this`length, this`ring, this`root, this`fed, this`appended, Members(ring)
      ensures Valid() && root == old(root) + [s] && node == ring[|root|]
      ensures Complete(root, digrams.Keys + ruleByDigram.Keys) && AtFirst(ring, root, digrams)
      ensures forall x :: x in Members(ring) ==> x in old(Members(ring)) || fresh(x)
    {
      hide TableOk, Inverse, Acyclic, IndexSound, Flatten, CountSum, KnownAll, Distinct, AlphabetOk, Known, Members,
        AtFirst, Balanced, RingOk;
      ghost var ring', root' := ring, root;
      node := AppendSymbol(s);
      GrowsAtFirst(ring', root', node, s);
      if prev != null {
        IndexPair(prev, node);
      }
    }

    lemma GrowsAtFirst(ring': seq<Node>, root': seq<Symbol>, node: Node, s: Symbol)
      requires Core() && ring == ring' + [node] && root == root' + [s]
      requires IndexSound(ring', root', digrams) && AtFirst(ring', root', digrams)
      ensures |ring| == |root| + 1 && AtFirst(ring, root, digrams)
    {
      hide TableOk, Inverse, Acyclic, Flatten, CountSum, KnownAll, AlphabetOk, IndexSound, AtFirst;
      AtFirstGrow(ring', root', digrams, node, s);
    }

    /** Indexes the last pair of the root unless it has a rule or an earlier place. */
    method IndexPair(prev: Node, node: Node)
      requires Valid() && |root| >= 2 && prev == ring[|root| - 1] && node == ring[|root|]
      requires Complete(root[..|root| - 1], digrams.Keys + ruleByDigram.Keys) && AtFirst(ring, root, digrams)
      modifies this`digrams
      ensures Valid() && forall d :: d in old(digrams) ==> d in digrams && digrams[d] == old(digrams)[d]
      ensures var d := (root[|root| - 2], root[|root| - 1]); d in digrams || d in ruleByDigram
      ensures AtFirst(ring, root, digrams)
    {
      hide TableOk, Inverse, Acyclic, Flatten, CountSum, KnownAll, Distinct, AlphabetOk, IndexSound, AtFirst, Complete;
      var digram := (prev.val, node.val);
      if digram !in ruleByDigram && digram !in digrams {
        IndexAdd(ring, root, digrams, |root| - 1);
        AtFirstAdd(ring, root, digrams, ruleByDigram.Keys);
        digrams := digrams[digram := prev];
      }
    }

    /** Rebuilds a saved grammar in a new one: every rule, then the root. */
    method Restore(symbols: seq<string>, views: seq<RuleView>, ghost g: Saved)
      requires Valid() && rules == map[] && nextID == 1 && alphabet == {} && root == [] && digrams == map[]
      requires SavedOk(g) && ViewsOf(g.rules, g.nextID, views) && symbols == DisplayAll(g.root)
      modifies this, Members(ring)
      ensures Valid() && Settled() && rules == g.rules && nextID == g.nextID && ruleByDigram == g.byDigram
      ensures root == g.root && alphabet == g.alphabet && fed == Flatten(g.rules, g.root)
      ensures Complete(root, digrams.Keys + ruleByDigram.Keys) && AtFirst(ring, root, digrams)
      ensures forall x :: x in Members(ring) ==> x in old(Members(ring)) || fresh(x)
    {
      hide TableOk, Inverse, Acyclic, IndexSound, Flatten, CountSum, KnownAll, Distinct, AlphabetOk, Known, RingOk,
        Members, SavedOk, ViewsOf, ParseAll, DisplayAll, NonEmpty, ParseDisplay, Balanced, Complete, Settled, AtFirst;
      LearnAll(views, g);
      RestoreReady(g);
      RestoreRoot(symbols);
      CompleteIsSettled(g);
    }

    /** The saved root parses back to itself, and every symbol of it is known to the saved table. */
    lemma RestoreReady(g: Saved)
      requires SavedOk(g)
      ensures ParseAll(NonEmpty(DisplayAll(g.root))) == g.root
      ensures forall i :: 0 <= i < |DisplayAll(g.root)| ==>
        Known(ParseDisplay(DisplayAll(g.root)[i]), g.nextID, g.alphabet)
    {
      ParseDisplayed(g.root, g.nextID, g.alphabet);
      DisplayedNonEmpty(g.root, g.nextID, g.alphabet);
      forall i | 0 <= i < |g.root| ensures ParseDisplay(DisplayAll(g.root)[i]) == g.root[i] {
        assert ParseAll(DisplayAll(g.root))[i] == g.root[i];
      }
    }

    lemma CompleteIsSettled(g: Saved)
      requires SavedOk(g) && root == g.root && ruleByDigram == g.byDigram
      requires Complete(root, digrams.Keys + ruleByDigram.Keys)
      ensures Settled()
    {
      if |root| >= 2 {
        assert root[|root| - 2] == root[(|root| - 1) - 1];
      }
    }

    /** Learns every saved rule. */
    method LearnAll(views: seq<RuleView>, ghost g: Saved)
      requires Valid() && rules == map[] && nextID == 1 && alphabet == {} && root == [] && digrams == map[]
      requires SavedOk(g) && ViewsOf(g.rules, g.nextID, views)
      modifies this`rules, this`ruleByDigram, this`nextID, this`alphabet, this`appended
      ensures Valid() && rules == g.rules && nextID == g.nextID && ruleByDigram == g.byDigram && alphabet == g.alphabet
    {
      hide IndexSound, CountSum, Inverse, TableOk, Acyclic, RingOk, AlphabetOk, KnownAll, ViewOf;
      assert Prefix(g.rules, 0) == map[] by {
        EmptyPrefix(g);
      }
      alphabet := g.alphabet;
      for n := 0 to |views|
        invariant rules == Prefix(g.rules, n) && nextID == n + 1 && Inverse(rules, ruleByDigram)
        invariant alphabet == g.alphabet
      {
        LearnStep(g, ruleByDigram, n);
        ViewSymbols(g, n);
        Learn(views[n].id, views[n].count, views[n].symbols);
      }
      WholePrefix(g);
      InverseIsUnique(g.rules, ruleByDigram, g.byDigram);
      appended := length + dropped + CountSum(rules, nextID);
      EmptyRoot(g);
    }
  }

  // ------------------------------------------------------------- whole runs

  /** One call on a grammar: Analyze, or Sentence. */
  datatype Event = Tokens(tokens: seq<string>) | Break

  /** The non-empty tokens fed since the last Break. */
  ghost function SinceBreak(events: seq<Event>): seq<string> {
    if events == [] then []
    else match events[|events| - 1]
      case Break => []
      case Tokens(tokens) => SinceBreak(events[..|events| - 1]) + NonEmpty(tokens)
  }

  /** How many non-empty tokens were fed in all. */
  ghost function TotalTokens(events: seq<Event>): nat {
    if events == [] then 0
    else
      var last := events[|events| - 1];
      TotalTokens(events[..|events| - 1]) + if last.Tokens? then |NonEmpty(last.tokens)| else 0
  }

  /** How many non-empty tokens were fed before the last Break; none when there was no Break. */
  ghost function TokensBeforeBreak(events: seq<Event>): nat {
    if events == [] then 0
    else if events[|events| - 1].Break? then TotalTokens(events)
    else TokensBeforeBreak(events[..|events| - 1])
  }

  /** No token imitates the internal form of a rule reference. */
  ghost predicate Feedable(events: seq<Event>) {
    forall i, j :: 0 <= i < |events| && events[i].Tokens? && 0 <= j < |events[i].tokens| ==>
      RuleID(events[i].tokens[j]).None?
  }

  /**
    Any run from a new grammar: the root expands to exactly the tokens since the last sentence break,
    every token is accounted for, and there are at most half as many rules as tokens.
   */
  method Run(events: seq<Event>) returns (g: Sequitur)
    requires Feedable(events)
    ensures g.Valid() && g.Sharp() && Flatten(g.rules, g.root) == SinceBreak(events)
    ensures TotalTokens(events) == |g.root| + g.dropped + CountSum(g.rules, g.nextID)
    ensures g.dropped >= 0 && 2 * |g.rules| <= TotalTokens(events)
    ensures g.dropped <= TokensBeforeBreak(events)
  {
    hide Sequitur.Valid, RuleID, Members, NonEmpty;
    g := new Sequitur();
    for i := 0 to |events|
      invariant g.Valid() && g.Sharp() && fresh(g) && forall x :: x in Members(g.ring) ==> fresh(x)
      invariant g.fed == SinceBreak(events[..i]) && g.appended == TotalTokens(events[..i])
      invariant 0 <= g.dropped <= TokensBeforeBreak(events[..i])
    {
      assert events[..i + 1][..i] == events[..i];
      Perform(g, events[i]);
    }
    assert events[..|events|] == events;
    RunAccount(g);
  }

  method Perform(g: Sequitur, event: Event)
    requires g.Valid() && g.Sharp()
    requires event.Tokens? ==> forall j :: 0 <= j < |event.tokens| ==> RuleID(event.tokens[j]).None?
    modifies g, Members(g.ring)
    ensures g.Valid() && g.Sharp() && forall x :: x in Members(g.ring) ==> x in old(Members(g.ring)) || fresh(x)
    ensures g.fed == if event.Tokens? then old(g.fed) + NonEmpty(event.tokens) else []
    ensures g.appended == old(g.appended) + if event.Tokens? then |NonEmpty(event.tokens)| else 0
    ensures if event.Tokens? then g.dropped == old(g.dropped) else old(g.dropped) <= g.dropped <= g.appended
  {
    hide TableOk, Inverse, Acyclic, IndexSound, CountSum, KnownAll, Distinct, AlphabetOk, RuleID, Members, Flatten,
      NonEmpty;
    RingMembers(g.ring);
    match event {
      case Tokens(tokens) =>
        var _ := g.Analyze(tokens);
      case Break =>
        g.Sentence();
        HalfAsManyRules(g.rules, g.nextID, g.alphabet);
    }
  }

  /** The account of a sound grammar, and that it has at most half as many rules as tokens. */
  lemma RunAccount(g: Sequitur)
    requires g.Valid() && g.dropped >= 0
    ensures Acyclic(g.rules) && Flatten(g.rules, g.root) == g.fed
    ensures g.appended == |g.root| + g.dropped + CountSum(g.rules, g.nextID) && 2 * |g.rules| <= g.appended
  {
    HalfAsManyRules(g.rules, g.nextID, g.alphabet);
  }

  lemma HalfAsManyRules(rules: Table, nextID: int, alphabet: set<string>)
    requires TableOk(rules, nextID, alphabet)
    ensures CountSum(rules, nextID) >= 2 * |rules|
  {
    CountSumAtLeastTwiceRules(rules, nextID, nextID, alphabet);
    TableSize(rules, nextID);
  }
}
