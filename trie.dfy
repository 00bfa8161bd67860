/**
 * The dictionary trie and the segmenter (src/trie.rs, `Trie`).
 *
 * The trie's nodes are held in one sequence (see `TrieData`); the insert
 * operations walk it and update it in place, and `Segment` fills its
 * `dp` and `track` tables in place, as the source does.
 */
module Trie {
  import opened Wrappers
  import opened Utils
  import opened Tokens
  import opened TrieData
  import opened Segmentation

  class Trie {
    var nodes: seq<Node>
    ghost var keys: seq<string>

    /** The nodes form a tree rooted at index 0, and every node keeps its
        readings distinct and its weights from heaviest to lightest. */
    ghost predicate Valid()
      reads this
    {
      Shaped(nodes, keys) && forall i | 0 <= i < |nodes| :: Consistent(EntryOfNode(nodes[i]))
    }

    /** `Trie::new`: a root and nothing else. */
    constructor()
      ensures Valid()
      ensures forall w :: EntryOf(nodes, w) == NoEntry
    {
      nodes := [Fresh];
      keys := [[]];
    }

    /** Every word's entry in a valid trie is consistent. */
    lemma EntriesConsistent(w: string)
      requires Valid()
      ensures Consistent(EntryOf(nodes, w))
    {
    }

    /** `node.children.entry(c).or_insert_with(TrieNode::new)`: the child of
        node `t` along `c`, made fresh if missing. */
    method Child(t: nat, c: char) returns (u: nat)
      requires Valid() && t < |nodes| && Lookup(nodes, keys[t]) == Some(t)
      modifies this
      ensures Valid()
      ensures u < |nodes| && Lookup(nodes, old(keys[t]) + [c]) == Some(u) && keys[u] == old(keys[t]) + [c]
      ensures forall w :: EntryOf(nodes, w) == old(EntryOf(nodes, w))
      ensures forall w :: Present(nodes, w) <==> old(Present(nodes, w)) || w == old(keys[t]) + [c]
    {
      LookupSnoc(nodes, keys[t], c);
      if c in nodes[t].children {
        u := nodes[t].children[c];
      } else {
        AddChildShaped(nodes, keys, t, c);
        AddChildEntries(nodes, keys, t, c);
        AddChildLookup(nodes, keys, t, c, keys[t] + [c]);
        u := |nodes|;
        nodes := AddChild(nodes, t, c);
        keys := keys + [keys[t] + [c]];
      }
    }

    /** The walk shared by `insert_char`, `insert_word` and
        `insert_lettered`: follow `word` from the root, creating each
        missing node. */
    method Reach(word: string) returns (t: nat)
      requires Valid()
      modifies this
      ensures Valid()
      ensures t < |nodes| && Lookup(nodes, word) == Some(t) && keys[t] == word
      ensures forall w :: EntryOf(nodes, w) == old(EntryOf(nodes, w))
      ensures forall w :: Present(nodes, w) <==> old(Present(nodes, w)) || w <= word
    {
      t := 0;
      for k := 0 to |word|
        invariant Valid()
        invariant t < |nodes| && Lookup(nodes, word[..k]) == Some(t) && keys[t] == word[..k]
        invariant forall w :: EntryOf(nodes, w) == old(EntryOf(nodes, w))
        invariant forall w :: Present(nodes, w) <==> old(Present(nodes, w)) || w <= word[..k]
      {
        assert word[..k + 1] == word[..k] + [word[k]];
        t := Child(t, word[k]);
        forall w ensures Present(nodes, w) <==> old(Present(nodes, w)) || w <= word[..k + 1] {
          PrefixOfSnoc(w, word[..k], word[k]);
        }
      }
      assert word[..|word|] == word;
    }

    /** Replace the entry of the node reached by `word`. */
    method Store(word: string, t: nat, e: Entry)
      requires Valid() && t < |nodes| && Lookup(nodes, word) == Some(t) && keys[t] == word
      requires Consistent(e)
      modifies this
      ensures Valid()
      ensures EntryOf(nodes, word) == e
      ensures forall w | w != word :: EntryOf(nodes, w) == old(EntryOf(nodes, w))
      ensures forall w :: Present(nodes, w) == old(Present(nodes, w))
    {
      SetEntryEntries(nodes, keys, t, e);
      nodes := SetEntry(nodes, t, e);
    }

    /** `insert_char`: file `reading` under the one-character word `[ch]`
        before the first reading with a lower weight, unless it is there
        already. The source panics unless `CanInsertWeighted` holds. */
    method InsertChar(ch: char, reading: string, weight: nat)
      requires Valid()
      requires CanInsertWeighted(EntryOf(nodes, [ch]), reading, weight)
      modifies this
      ensures Valid()
      ensures EntryOf(nodes, [ch]) == InsertWeighted(old(EntryOf(nodes, [ch])), reading, weight)
      ensures forall w | w != [ch] :: EntryOf(nodes, w) == old(EntryOf(nodes, w))
      ensures forall w :: Present(nodes, w) <==> old(Present(nodes, w)) || w <= [ch]
    {
      var t := Reach([ch]);
      var e := EntryOfNode(nodes[t]);
      if reading !in e.readings {
        InsertWeightedPlacement(e, reading, weight);
        Store([ch], t, InsertWeighted(e, reading, weight));
      }
    }

    /** The tail shared by `insert_word` and `insert_lettered`: walk to
        `word`, creating nodes, and append `reading` unless present. */
    method InsertPath(word: string, reading: string)
      requires Valid()
      modifies this
      ensures Valid()
      ensures EntryOf(nodes, word) == AddReading(old(EntryOf(nodes, word)), reading)
      ensures forall w | w != word :: EntryOf(nodes, w) == old(EntryOf(nodes, w))
      ensures forall w :: Present(nodes, w) <==> old(Present(nodes, w)) || w <= word
    {
      var t := Reach(word);
      var e := EntryOfNode(nodes[t]);
      if reading !in e.readings {
        AddReadingKeeps(e, reading);
        Store(word, t, AddReading(e, reading));
      }
    }

    /** `insert_word`: words of fewer than two characters are skipped. */
    method InsertWord(word: string, reading: string)
      requires Valid()
      modifies this
      ensures Valid()
      ensures |word| < 2 ==> nodes == old(nodes)
      ensures |word| >= 2 ==> EntryOf(nodes, word) == AddReading(old(EntryOf(nodes, word)), reading)
      ensures forall w | w != word :: EntryOf(nodes, w) == old(EntryOf(nodes, w))
      ensures forall w :: Present(nodes, w) <==> old(Present(nodes, w)) || (|word| >= 2 && w <= word)
    {
      if |word| < 2 {
        return;
      }
      InsertPath(word, reading);
    }

    /** `insert_lettered`: like `insert_word`, but only the empty word is
        skipped. */
    method InsertLettered(word: string, reading: string)
      requires Valid()
      modifies this
      ensures Valid()
      ensures word == [] ==> nodes == old(nodes)
      ensures word != [] ==> EntryOf(nodes, word) == AddReading(old(EntryOf(nodes, word)), reading)
      ensures forall w | w != word :: EntryOf(nodes, w) == old(EntryOf(nodes, w))
      ensures forall w :: Present(nodes, w) <==> old(Present(nodes, w)) || (word != [] && w <= word)
    {
      if word == [] {
        return;
      }
      InsertPath(word, reading);
    }

    /** `insert_freq`: set the frequency of a word already in the trie;
        a word with no node leaves the trie untouched (no node is made). */
    method InsertFreq(word: string, freq: int)
      requires Valid()
      modifies this
      ensures Valid()
      ensures !old(Present(nodes, word)) ==> nodes == old(nodes)
      ensures old(Present(nodes, word)) ==> EntryOf(nodes, word) == old(EntryOf(nodes, word)).(freq := freq)
      ensures forall w | w != word :: EntryOf(nodes, w) == old(EntryOf(nodes, w))
      ensures forall w :: Present(nodes, w) == old(Present(nodes, w))
    {
      var t := 0;
      for k := 0 to |word|
        invariant Valid() && nodes == old(nodes)
        invariant t < |nodes| && Lookup(nodes, word[..k]) == Some(t)
      {
        var c := word[k];
        assert word[..k + 1] == word[..k] + [c];
        LookupSnoc(nodes, word[..k], c);
        if c !in nodes[t].children {
          MissingExtension(nodes, word[..k + 1], word[k + 1..]);
          assert word[..k + 1] + word[k + 1..] == word;
          return;
        }
        t := nodes[t].children[c];
      }
      assert word[..|word|] == word;
      LookupKey(nodes, keys, word);
      var e := EntryOfNode(nodes[t]);
      Store(word, t, e.(freq := freq));
    }

    /** The trie walk of `segment` over the span `start..end`: the first
        reading and the frequency of the node it reaches, when the walk
        does not fall off the trie and that node has a reading
        (`trie_matched`). */
    method Probe(text: string, start: nat, end: nat) returns (hit: Option<(string, int)>)
      requires Valid() && start < end <= |text|
      ensures hit == DictHit(nodes, text[start..end])
    {
      ghost var span := text[start..end];
      var t := 0;
      for j := start to end
        invariant t < |nodes| && Lookup(nodes, span[..j - start]) == Some(t)
      {
        var ch := text[j];
        assert ch == span[j - start];
        WalkStep(nodes, span, j - start, t);
        if ch !in nodes[t].children {
          return None;
        }
        t := nodes[t].children[ch];
      }
      assert span[..end - start] == span;
      hit := if nodes[t].readings != [] then Some((nodes[t].readings[0], nodes[t].freq)) else None;
    }

    /** The update `segment` makes for each candidate piece: the piece
        `start..end` is recorded in cell `end` when its cost is better than
        what the cell holds (any cost beats the unreached sentinel). */
    method Offer(text: string, alnum: char -> bool, dp: array<Option<Score>>, track: array<(nat, Option<string>)>,
                 start: nat, end: nat, reading: Option<string>, gain: int)
      requires dp.Length == track.Length == |text| + 1 && start < end <= |text| && dp[start].Some?
      requires Admissible(nodes, alnum, text, Piece(start, end, reading, gain))
      requires dp[end].Some? ==> Justified(nodes, alnum, text, dp[..], track[..], end)
      modifies dp, track
      ensures dp[..] == old(dp[..])[end := dp[end]] && track[..] == old(track[..])[end := track[end]]
      ensures Justified(nodes, alnum, text, dp[..], track[..], end)
      ensures !Better(Plus(dp[start].value, One(gain)), dp[end].value)
      ensures old(dp[end]).Some? ==> !Better(old(dp[end]).value, dp[end].value)
      ensures || (dp[..] == old(dp[..]) && track[..] == old(track[..]))
              || (track[end].0 == start && (old(dp[end]).Some? ==> Better(dp[end].value, old(dp[end]).value)))
    {
      var cost := Plus(dp[start].value, One(gain));
      if Improves(cost, dp[end]) {
        dp[end] := Some(cost);
        track[end] := (start, reading);
        assert Chosen(dp[..], track[..], end) == Piece(start, end, reading, gain);
      }
    }

    /** The single-character fallback of `segment`: the character before
        `end` on its own, read with the first reading of its entry, if it
        has one. */
    method Fallback(text: string, alnum: char -> bool, dp: array<Option<Score>>, track: array<(nat, Option<string>)>, end: nat)
      requires Valid()
      requires dp.Length == track.Length == |text| + 1 && 1 <= end <= |text|
      requires dp[end - 1].Some? && dp[end].None?
      modifies dp, track
      ensures dp[..] == old(dp[..])[end := dp[end]] && track[..] == old(track[..])[end := track[end]]
      ensures Justified(nodes, alnum, text, dp[..], track[..], end)
      ensures !Better(Plus(dp[end - 1].value, One(0)), dp[end].value)
      ensures track[end].0 == end - 1
    {
      var c := text[end - 1];
      var singleReading: Option<string> := None;
      if c in nodes[0].children && nodes[nodes[0].children[c]].readings != [] {
        singleReading := Some(nodes[nodes[0].children[c]].readings[0]);
      }
      assert text[end - 1..end] == [] + [c];
      LookupSnoc(nodes, [], c);
      assert singleReading == FirstReading(nodes, text[end - 1..end]);
      Offer(text, alnum, dp, track, end - 1, end, singleReading, 0);
    }

    /** The body of the inner loop of `segment` for one start position: the
        trie walk over `start..end`, then the alpha-run fallback when the
        walk found no reading. */
    method TryStart(text: string, alnum: char -> bool, dp: array<Option<Score>>, track: array<(nat, Option<string>)>,
                    start: nat, end: nat)
      requires Valid()
      requires dp.Length == track.Length == |text| + 1 && start < end <= |text|
      requires dp[start].Some? && dp[end].Some? && Justified(nodes, alnum, text, dp[..], track[..], end)
      modifies dp, track
      ensures dp[..] == old(dp[..])[end := dp[end]] && track[..] == old(track[..])[end := track[end]]
      ensures Justified(nodes, alnum, text, dp[..], track[..], end)
      ensures !Better(old(dp[end]).value, dp[end].value)
      ensures DictHit(nodes, text[start..end]).Some? ==>
        !Better(Plus(dp[start].value, One(DictHit(nodes, text[start..end]).value.1)), dp[end].value)
      ensures DictHit(nodes, text[start..end]).None? && IsAlphaRun(alnum, text[start..end]) ==>
        !Better(Plus(dp[start].value, One(0)), dp[end].value)
      ensures || (dp[..] == old(dp[..]) && track[..] == old(track[..]))
              || (track[end].0 == start && Better(dp[end].value, old(dp[end]).value))
    {
      var hit := Probe(text, start, end);
      if hit.Some? {
        Offer(text, alnum, dp, track, start, end, Some(hit.value.0), hit.value.1);
      } else if IsAlphaRun(alnum, text[start..end]) {
        Offer(text, alnum, dp, track, start, end, None, 0);
      }
    }

    /** The inner loop of `segment`: offer cell `end` the pieces starting
        at every position before it, right to left. */
    method Sweep(text: string, alnum: char -> bool, dp: array<Option<Score>>, track: array<(nat, Option<string>)>, end: nat)
      requires Valid()
      requires dp.Length == track.Length == |text| + 1 && 1 <= end <= |text|
      requires forall e | 0 <= e < end :: dp[e].Some?
      requires Justified(nodes, alnum, text, dp[..], track[..], end)
      requires !Better(Plus(dp[end - 1].value, One(0)), dp[end].value)
      requires track[end].0 == end - 1
      modifies dp, track
      ensures dp[..] == old(dp[..])[end := dp[end]] && track[..] == old(track[..])[end := track[end]]
      ensures Justified(nodes, alnum, text, dp[..], track[..], end)
      ensures Covered(nodes, alnum, text, dp[..], end, 0)
      ensures KeepsFirstFound(nodes, alnum, text, dp[..], track[..], end)
    {
      var start := end;
      while start > 0
        invariant 0 <= start <= end
        invariant dp[..] == old(dp[..])[end := dp[end]] && track[..] == old(track[..])[end := track[end]]
        invariant Justified(nodes, alnum, text, dp[..], track[..], end)
        invariant !Better(Plus(dp[end - 1].value, One(0)), dp[end].value)
        invariant Covered(nodes, alnum, text, dp[..], end, start)
        invariant track[end].0 + 1 >= start
        invariant KeepsFirstFound(nodes, alnum, text, dp[..], track[..], end)
      {
        start := start - 1;
        ghost var before, recorded := dp[..], track[..];
        if dp[start].Some? {
          TryStart(text, alnum, dp, track, start, end);
          KeepFirstOneMore(nodes, alnum, text, before, recorded, dp[..], track[..], end, start);
          CoverOneMore(nodes, alnum, text, before, dp[..], end, start);
        }
      }
    }

    /** One round of the outer loop of `segment`: fill cell `end` from the
        single-character fallback and then from every start position. */
    method Relax(text: string, alnum: char -> bool, dp: array<Option<Score>>, track: array<(nat, Option<string>)>, end: nat)
      requires Valid()
      requires dp.Length == track.Length == |text| + 1 && 1 <= end <= |text|
      requires forall e | 0 <= e < end :: dp[e].Some?
      requires dp[end].None?
      modifies dp, track
      ensures dp[..] == old(dp[..])[end := dp[end]] && track[..] == old(track[..])[end := track[end]]
      ensures Justified(nodes, alnum, text, dp[..], track[..], end)
      ensures Covered(nodes, alnum, text, dp[..], end, 0)
      ensures KeepsFirstFound(nodes, alnum, text, dp[..], track[..], end)
    {
      if dp[end - 1].Some? {
        Fallback(text, alnum, dp, track, end);
      }
      Sweep(text, alnum, dp, track, end);
    }

    /** The table-filling loops of `segment`: after them every cell is
        reached, justified by the piece `track` records, and not improved
        on by any piece ending there. */
    method Fill(text: string, alnum: char -> bool) returns (dp: array<Option<Score>>, track: array<(nat, Option<string>)>)
      requires Valid()
      ensures dp.Length == track.Length == |text| + 1
      ensures dp[0] == Some(Score(0, 0))
      ensures Filled(nodes, alnum, text, dp[..], track[..], |text| + 1)
    {
      var n := |text|;
      dp := new Option<Score>[n + 1](_ => None);
      track := new (nat, Option<string>)[n + 1](_ => (0, None));
      dp[0] := Some(Score(0, 0));
      for end := 1 to n + 1
        invariant dp[0] == Some(Score(0, 0))
        invariant Filled(nodes, alnum, text, dp[..], track[..], end)
        invariant forall e | end <= e <= n :: dp[e].None?
      {
        ghost var dp0, track0 := dp[..], track[..];
        assert forall e | 0 <= e < end :: dp0[e].Some? by {
          forall e | 0 <= e < end ensures dp0[e].Some? {
            assert Covered(nodes, alnum, text, dp0, e, 0);
          }
        }
        Relax(text, alnum, dp, track, end);
        FilledExtend(nodes, alnum, text, dp0, track0, dp[..], track[..], end);
      }
    }

    /** The reconstruction at the end of `segment`: follow `track` back from
        the end of the text, one recorded piece at a time, prepending each
        piece's token. */
    method ReadBackTokens(text: string, alnum: char -> bool, track: array<(nat, Option<string>)>, ghost cells: seq<Option<Score>>)
      returns (tokens: seq<Token>, ghost pieces: seq<Piece>)
      requires track.Length == |cells| == |text| + 1
      requires forall e | 0 <= e < |cells| :: cells[e].Some?
      requires forall e | 1 <= e <= |text| :: Justified(nodes, alnum, text, cells, track[..], e)
      ensures IsSegmentation(nodes, alnum, text, pieces, 0, |text|)
      ensures Values(cells)[|text|] == Plus(Values(cells)[0], Total(pieces))
      ensures ReadBack(text, track[..], Values(cells), 0, pieces)
      ensures tokens == TokensOf(text, pieces)
    {
      ghost var chosen, best := track[..], Values(cells);
      tokens, pieces := [], [];
      var curr: nat := |text|;
      while curr > 0
        invariant curr <= |text|
        invariant IsSegmentation(nodes, alnum, text, pieces, curr, |text|)
        invariant best[|text|] == Plus(best[curr], Total(pieces))
        invariant tokens == TokensOf(text, pieces)
        invariant ReadBack(text, chosen, best, curr, pieces)
      {
        assert Justified(nodes, alnum, text, cells, chosen, curr);
        PrependChosen(nodes, alnum, text, cells, chosen, curr, pieces, tokens);
        var prev, reading := track[curr].0, track[curr].1;
        ghost var piece := Chosen(cells, chosen, curr);
        tokens := [Token(text[prev..curr], reading, None)] + tokens;
        pieces := [piece] + pieces;
        curr := prev;
      }
    }

    /** `segment`: the tokens of a segmentation of `text` with the fewest
        tokens and, among those, the highest total frequency, in text
        order; ties go to the segmentation whose last token is shortest. */
    method Segment(text: string, alnum: char -> bool) returns (tokens: seq<Token>, ghost pieces: seq<Piece>)
      requires Valid()
      ensures IsSegmentation(nodes, alnum, text, pieces, 0, |text|)
      ensures Optimal(nodes, alnum, text, pieces)
      ensures ShortestLastOnTies(nodes, alnum, text, pieces)
      ensures tokens == TokensOf(text, pieces)
      ensures Words(tokens) == text
    {
      var dp, track := Fill(text, alnum);
      ghost var cells := dp[..];
      assert forall e | 0 <= e <= |text| :: cells[e].Some? by {
        forall e | 0 <= e <= |text| ensures cells[e].Some? {
          assert Covered(nodes, alnum, text, cells, e, 0);
        }
      }
      tokens, pieces := ReadBackTokens(text, alnum, track, cells);
      TableOptimal(nodes, alnum, text, cells, pieces);
      TiesFromTable(nodes, alnum, text, cells, track[..], pieces);
      TokensPartition(nodes, alnum, text, pieces, 0, |text|);
      assert text[0..|text|] == text;
    }
  }
}
