/**
 * The nodes of the dictionary trie (src/trie.rs, `TrieNode`) and what a
 * word's entry is.
 *
 * A `TrieNode` owns its children through a `HashMap<char, TrieNode>`. Here
 * all nodes of one trie live in a sequence with the root first, and a
 * node's `children` map a character to the index of the child node. The
 * tree shape is recorded by ghost `keys`: the word that leads from the root
 * to each node.
 */
module TrieData {
  import opened Wrappers

  /** A `TrieNode`: children by character, the readings with the weights
      that ordered them (`char_weights`), and the frequency. */
  datatype Node = Node(children: map<char, nat>, readings: seq<string>, weights: seq<nat>, freq: int)

  /** `TrieNode::new`. */
  const Fresh: Node := Node(map[], [], [], 0)

  /** What a node holds for its word, without the children. */
  datatype Entry = Entry(readings: seq<string>, weights: seq<nat>, freq: int)

  const NoEntry: Entry := Entry([], [], 0)

  function EntryOfNode(n: Node): Entry {
    Entry(n.readings, n.weights, n.freq)
  }

  // ---------------------------------------------------------------------
  // Walking from the root
  // ---------------------------------------------------------------------

  /** The index of the node reached from the root by following `w` one
      character at a time, if every step has a child. */
  function Lookup(nodes: seq<Node>, w: string): (r: Option<nat>)
    ensures r.Some? ==> r.value < |nodes|
    decreases |w|
  {
    if |nodes| == 0 then None
    else if w == [] then Some(0)
    else
      match Lookup(nodes, w[..|w| - 1])
      case None => None
      case Some(i) =>
        var c := w[|w| - 1];
        if c in nodes[i].children && nodes[i].children[c] < |nodes| then Some(nodes[i].children[c])
        else None
  }

  predicate Present(nodes: seq<Node>, w: string) {
    Lookup(nodes, w).Some?
  }

  /** The entry stored for `w`; a word without a node has no readings, no
      weights and frequency 0. */
  function EntryOf(nodes: seq<Node>, w: string): Entry {
    match Lookup(nodes, w)
    case Some(i) => EntryOfNode(nodes[i])
    case None => NoEntry
  }

  /** One more step of a walk. */
  lemma {:induction false} LookupSnoc(nodes: seq<Node>, w: string, c: char)
    ensures Lookup(nodes, w + [c]) ==
      match Lookup(nodes, w)
      case None => None
      case Some(i) =>
        if c in nodes[i].children && nodes[i].children[c] < |nodes| then Some(nodes[i].children[c]) else None
  {
    assert (w + [c])[..|w|] == w;
  }

  /** One step of a walk over `span` at node `t`, reached by its first `k`
      characters: without a child for the next character the walk falls
      off and `span` has no node; with one, the walk goes on to that
      child. */
  lemma WalkStep(nodes: seq<Node>, span: string, k: nat, t: nat)
    requires k < |span| && Lookup(nodes, span[..k]) == Some(t)
    ensures span[k] !in nodes[t].children ==> Lookup(nodes, span).None?
    ensures span[k] in nodes[t].children && nodes[t].children[span[k]] < |nodes| ==>
      Lookup(nodes, span[..k + 1]) == Some(nodes[t].children[span[k]])
  {
    assert span[..k + 1] == span[..k] + [span[k]];
    LookupSnoc(nodes, span[..k], span[k]);
    if span[k] !in nodes[t].children {
      MissingExtension(nodes, span[..k + 1], span[k + 1..]);
      assert span[..k + 1] + span[k + 1..] == span;
    }
  }

  /** A walk that falls off the trie stays off: no extension of a missing
      word is present. */
  lemma {:induction false} MissingExtension(nodes: seq<Node>, w: string, x: string)
    requires Lookup(nodes, w).None?
    ensures Lookup(nodes, w + x).None?
    decreases |x|
  {
    if x != [] {
      var y := x[..|x| - 1];
      MissingExtension(nodes, w, y);
      assert w + x == (w + y) + [x[|x| - 1]];
      LookupSnoc(nodes, w + y, x[|x| - 1]);
    } else {
      assert w + x == w;
    }
  }

  // ---------------------------------------------------------------------
  // Tree shape
  // ---------------------------------------------------------------------

  /** There is a root, and every edge `i -c-> j` points to a node whose word
      is the word of `i` followed by `c`. */
  ghost predicate Shaped(nodes: seq<Node>, keys: seq<string>) {
    && |nodes| == |keys| > 0
    && keys[0] == []
    && forall i, c | 0 <= i < |nodes| && c in nodes[i].children ::
         nodes[i].children[c] < |nodes| && keys[nodes[i].children[c]] == keys[i] + [c]
  }

  /** Only its own word leads to a node: the node a walk reaches is the one
      whose key is the walked word. */
  lemma {:induction false} LookupKey(nodes: seq<Node>, keys: seq<string>, w: string)
    requires Shaped(nodes, keys)
    ensures Lookup(nodes, w).Some? ==> keys[Lookup(nodes, w).value] == w
    decreases |w|
  {
    if w != [] {
      var p := w[..|w| - 1];
      LookupKey(nodes, keys, p);
      assert w == p + [w[|w| - 1]];
    }
  }

  /** `or_insert_with(TrieNode::new)` for a missing child: node `t` gets an
      edge `c` to a fresh node appended at the end. */
  function AddChild(nodes: seq<Node>, t: nat, c: char): seq<Node>
    requires t < |nodes|
  {
    nodes[t := nodes[t].(children := nodes[t].children[c := |nodes|])] + [Fresh]
  }

  /** Adding a child makes exactly one more word present, the word of `t`
      followed by `c`, leads it to the fresh node, and changes no other
      walk. */
  lemma {:induction false} AddChildLookup(nodes: seq<Node>, keys: seq<string>, t: nat, c: char, w: string)
    requires Shaped(nodes, keys) && t < |nodes| && c !in nodes[t].children
    requires Lookup(nodes, keys[t]) == Some(t)
    ensures Lookup(AddChild(nodes, t, c), w) ==
      if w == keys[t] + [c] then Some(|nodes|) else Lookup(nodes, w)
    decreases |w|
  {
    if w != [] {
      var p, x := w[..|w| - 1], w[|w| - 1];
      assert w == p + [x];
      AddChildLookup(nodes, keys, t, c, p);
      AddChildStep(nodes, keys, t, c, p, x);
    }
  }

  /** The step of `AddChildLookup`: one more character after a word whose
      walk in the grown trie is already known. */
  lemma AddChildStep(nodes: seq<Node>, keys: seq<string>, t: nat, c: char, p: string, x: char)
    requires Shaped(nodes, keys) && t < |nodes| && c !in nodes[t].children
    requires Lookup(nodes, keys[t]) == Some(t)
    requires Lookup(AddChild(nodes, t, c), p) ==
      if p == keys[t] + [c] then Some(|nodes|) else Lookup(nodes, p)
    ensures Lookup(AddChild(nodes, t, c), p + [x]) ==
      if p + [x] == keys[t] + [c] then Some(|nodes|) else Lookup(nodes, p + [x])
  {
    var grown := AddChild(nodes, t, c);
    LookupSnoc(nodes, p, x);
    LookupSnoc(grown, p, x);
    if p == keys[t] + [c] {
      LookupSnoc(nodes, keys[t], c);
      assert grown[|nodes|] == Fresh;
    } else if Lookup(nodes, p).Some? {
      LookupKey(nodes, keys, p);
      AddChildEdges(nodes, t, c, Lookup(nodes, p).value);
    } else {
      assert p != keys[t];
    }
  }

  /** The edges out of an old node after adding a child. */
  lemma AddChildEdges(nodes: seq<Node>, t: nat, c: char, i: nat)
    requires t < |nodes| && i < |nodes|
    ensures AddChild(nodes, t, c)[i].children ==
      if i == t then nodes[t].children[c := |nodes|] else nodes[i].children
  {
  }

  /** The edges after adding a child still respect the keys. */
  lemma {:induction false} AddChildShaped(nodes: seq<Node>, keys: seq<string>, t: nat, c: char)
    requires Shaped(nodes, keys) && t < |nodes| && c !in nodes[t].children
    ensures Shaped(AddChild(nodes, t, c), keys + [keys[t] + [c]])
  {
    var grown, grownKeys := AddChild(nodes, t, c), keys + [keys[t] + [c]];
    forall i, d | 0 <= i < |grown| && d in grown[i].children
      ensures grown[i].children[d] < |grown| && grownKeys[grown[i].children[d]] == grownKeys[i] + [d]
    {
      if i != t || d != c {
        assert grown[i].children[d] == nodes[i].children[d];
      }
    }
  }

  /** Adding a child leaves every node's entry as it was, gives the fresh
      node no entry, leaves every word's entry as it was, and makes the
      word of `t` followed by `c` present. */
  lemma AddChildEntries(nodes: seq<Node>, keys: seq<string>, t: nat, c: char)
    requires Shaped(nodes, keys) && t < |nodes| && c !in nodes[t].children
    requires Lookup(nodes, keys[t]) == Some(t)
    ensures forall i | 0 <= i < |AddChild(nodes, t, c)| ::
      EntryOfNode(AddChild(nodes, t, c)[i]) == if i < |nodes| then EntryOfNode(nodes[i]) else NoEntry
    ensures forall w :: EntryOf(AddChild(nodes, t, c), w) == EntryOf(nodes, w)
    ensures forall w :: Present(AddChild(nodes, t, c), w) <==> Present(nodes, w) || w == keys[t] + [c]
  {
    var grown := AddChild(nodes, t, c);
    assert forall i | 0 <= i < |grown| :: EntryOfNode(grown[i]) == if i < |nodes| then EntryOfNode(nodes[i]) else NoEntry;
    forall w ensures EntryOf(grown, w) == EntryOf(nodes, w) && (Present(grown, w) <==> Present(nodes, w) || w == keys[t] + [c]) {
      AddChildLookup(nodes, keys, t, c, w);
      if w == keys[t] + [c] {
        LookupSnoc(nodes, keys[t], c);
      }
    }
  }

  /** The prefixes of `v + [c]` are those of `v` and `v + [c]` itself. */
  lemma PrefixOfSnoc(w: string, v: string, c: char)
    ensures w <= v + [c] <==> w <= v || w == v + [c]
  {
    if w <= v + [c] && w != v + [c] {
      assert w == (v + [c])[..|w|] == v[..|w|];
    }
  }

  /** Replacing what node `t` holds, keeping its children. */
  function SetEntry(nodes: seq<Node>, t: nat, e: Entry): seq<Node>
    requires t < |nodes|
  {
    nodes[t := Node(nodes[t].children, e.readings, e.weights, e.freq)]
  }

  /** Changing what a node holds changes no walk. */
  lemma {:induction false} SetEntryLookup(nodes: seq<Node>, t: nat, e: Entry, w: string)
    requires t < |nodes|
    ensures Lookup(SetEntry(nodes, t, e), w) == Lookup(nodes, w)
    decreases |w|
  {
    if w != [] {
      var p, x := w[..|w| - 1], w[|w| - 1];
      assert w == p + [x];
      SetEntryLookup(nodes, t, e, p);
      LookupSnoc(nodes, p, x);
      LookupSnoc(SetEntry(nodes, t, e), p, x);
    }
  }

  /** Changing what the node of `keys[t]` holds changes that word's entry
      and no other. */
  lemma SetEntryEntries(nodes: seq<Node>, keys: seq<string>, t: nat, e: Entry)
    requires Shaped(nodes, keys) && t < |nodes| && Lookup(nodes, keys[t]) == Some(t)
    ensures Shaped(SetEntry(nodes, t, e), keys)
    ensures forall w :: EntryOf(SetEntry(nodes, t, e), w) == if w == keys[t] then e else EntryOf(nodes, w)
    ensures forall w :: Present(SetEntry(nodes, t, e), w) == Present(nodes, w)
  {
    var updated := SetEntry(nodes, t, e);
    forall w ensures EntryOf(updated, w) == (if w == keys[t] then e else EntryOf(nodes, w))
      && Present(updated, w) == Present(nodes, w)
    {
      SetEntryLookup(nodes, t, e, w);
      LookupKey(nodes, keys, w);
    }
  }

  // ---------------------------------------------------------------------
  // Readings
  // ---------------------------------------------------------------------

  predicate NoDup(rs: seq<string>) {
    forall i, j | 0 <= i < j < |rs| :: rs[i] != rs[j]
  }

  predicate NonIncreasing(ws: seq<nat>) {
    forall i, j | 0 <= i < j < |ws| :: ws[i] >= ws[j]
  }

  /** What every node keeps: no reading twice, weights from heaviest to
      lightest, and no more weights than readings (readings added by word
      entries carry no weight). */
  predicate Consistent(e: Entry) {
    NoDup(e.readings) && NonIncreasing(e.weights) && |e.weights| <= |e.readings|
  }

  /** `if !readings.contains(&r) { readings.push(r) }`: the reading is
      added at the end unless it is already there. */
  function AddReading(e: Entry, reading: string): (r: Entry)
    ensures reading in r.readings
    ensures e.readings <= r.readings && r.weights == e.weights && r.freq == e.freq
    ensures |r.readings| == if reading in e.readings then |e.readings| else |e.readings| + 1
  {
    if reading in e.readings then e else e.(readings := e.readings + [reading])
  }

  /** Adding a reading keeps an entry consistent, adds nothing but that
      reading, and never displaces the primary (first) reading. */
  lemma AddReadingKeeps(e: Entry, reading: string)
    requires Consistent(e)
    ensures Consistent(AddReading(e, reading))
    ensures forall x :: x in AddReading(e, reading).readings <==> x in e.readings || x == reading
    ensures e.readings != [] ==> AddReading(e, reading).readings[0] == e.readings[0]
  {
  }

  /** `char_weights.iter().position(|&w| w < weight)`: the first weight
      strictly lower than `weight`. */
  function FirstLower(ws: seq<nat>, weight: nat): (r: Option<nat>)
    ensures r.Some? ==> r.value < |ws| && ws[r.value] < weight
    ensures r.Some? ==> forall j | 0 <= j < r.value :: ws[j] >= weight
    ensures r.None? ==> forall j | 0 <= j < |ws| :: ws[j] >= weight
  {
    if ws == [] then None
    else if ws[0] < weight then Some(0)
    else match FirstLower(ws[1..], weight)
      case Some(p) => Some(p + 1)
      case None => None
  }

  /** Where `insert_char` puts a new reading: before the first lighter
      weight, or at the end of the readings. */
  function InsertPosition(e: Entry, weight: nat): nat {
    match FirstLower(e.weights, weight)
    case Some(p) => p
    case None => |e.readings|
  }

  /** `insert_char` does not panic: the reading is already there, or its
      position is within both `readings` and `char_weights` (`Vec::insert`
      past the end panics). */
  predicate CanInsertWeighted(e: Entry, reading: string, weight: nat) {
    reading in e.readings || (InsertPosition(e, weight) <= |e.readings| && InsertPosition(e, weight) <= |e.weights|)
  }

  /** On a consistent entry, `insert_char` panics exactly when the reading
      is new, no weight is lighter, and some reading has no weight (one
      added by a word or lettered entry). */
  lemma InsertWeightedPanics(e: Entry, reading: string, weight: nat)
    requires Consistent(e)
    ensures !CanInsertWeighted(e, reading, weight) <==>
      reading !in e.readings && FirstLower(e.weights, weight).None? && |e.weights| < |e.readings|
  {
  }

  function InsertAt<T>(s: seq<T>, i: nat, x: T): (r: seq<T>)
    requires i <= |s|
    ensures |r| == |s| + 1 && r[i] == x
    ensures forall j | 0 <= j < i :: r[j] == s[j]
    ensures forall j | i < j < |r| :: r[j] == s[j - 1]
  {
    s[..i] + [x] + s[i..]
  }

  /** The node update of `insert_char`. */
  function InsertWeighted(e: Entry, reading: string, weight: nat): Entry
    requires CanInsertWeighted(e, reading, weight)
  {
    if reading in e.readings then e
    else
      var pos := InsertPosition(e, weight);
      e.(readings := InsertAt(e.readings, pos, reading), weights := InsertAt(e.weights, pos, weight))
  }

  /** A reading already present leaves the entry as it is. */
  lemma {:induction false} InsertWeightedPresent(e: Entry, reading: string, weight: nat)
    requires reading in e.readings
    ensures InsertWeighted(e, reading, weight) == e
  {
  }

  /** A new reading and its weight go in at the same position, after every
      reading at least as heavy (so equal weights keep their insertion
      order) and before every lighter one; the entry stays consistent. */
  lemma InsertWeightedPlacement(e: Entry, reading: string, weight: nat)
    requires Consistent(e) && CanInsertWeighted(e, reading, weight) && reading !in e.readings
    ensures var r := InsertWeighted(e, reading, weight);
      var pos := InsertPosition(e, weight);
      && pos <= |e.weights|
      && r.readings == e.readings[..pos] + [reading] + e.readings[pos..]
      && r.weights == e.weights[..pos] + [weight] + e.weights[pos..]
      && (forall j | 0 <= j < pos :: e.weights[j] >= weight)
      && (forall j | pos <= j < |e.weights| :: e.weights[j] < weight)
      && r.freq == e.freq
      && Consistent(r)
  {
    var r := InsertWeighted(e, reading, weight);
    var pos := InsertPosition(e, weight);
    if FirstLower(e.weights, weight).Some? {
      forall j | pos <= j < |e.weights| ensures e.weights[j] < weight {
        assert e.weights[pos] >= e.weights[j];
      }
    }
    assert forall i | 0 <= i < |r.readings| :: r.readings[i] == (if i < pos then e.readings[i] else if i == pos then reading else e.readings[i - 1]);
    forall i, j | 0 <= i < j < |r.readings| ensures r.readings[i] != r.readings[j] {
      if i == pos {
        assert r.readings[j] == e.readings[j - 1];
      } else if j == pos {
        assert r.readings[i] == e.readings[i];
      }
    }
    assert forall i | 0 <= i < |r.weights| :: r.weights[i] == (if i < pos then e.weights[i] else if i == pos then weight else e.weights[i - 1]);
  }
}
