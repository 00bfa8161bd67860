/**
 * What `Trie::segment` (src/trie.rs) computes, stated without its loops.
 *
 * A segmentation of the input is a chain of pieces that cover it end to
 * end. A piece may be
 *   - a single character, read with the first reading of its dictionary
 *     entry if it has one;
 *   - a span that is a dictionary word with at least one reading, read
 *     with its first reading, adding the word's frequency;
 *   - an alpha run that is not such a dictionary word, with no reading.
 * Each piece counts one token; among all segmentations the segmenter picks
 * one with the fewest tokens and, among those, the highest total
 * frequency.
 */
module Segmentation {
  import opened Wrappers
  import opened Utils
  import opened TrieData
  import opened Tokens

  // ---------------------------------------------------------------------
  // Scores
  // ---------------------------------------------------------------------

  /** A `dp` cell: the number of tokens and their total frequency. */
  datatype Score = Score(count: nat, freq: int)

  /** `Trie::better`: fewer tokens wins; at the same count the higher
      frequency wins; equal scores are not better. */
  predicate Better(candidate: Score, current: Score) {
    if candidate.count != current.count then candidate.count < current.count
    else candidate.freq > current.freq
  }

  /** A cell still holding the `usize::MAX` sentinel (here `None`) is
      improved by every candidate. */
  predicate Improves(candidate: Score, cell: Option<Score>) {
    cell.None? || Better(candidate, cell.value)
  }

  function Plus(a: Score, b: Score): Score {
    Score(a.count + b.count, a.freq + b.freq)
  }

  /** The score of one token that adds `gain` to the frequency. */
  function One(gain: int): Score {
    Score(1, gain)
  }

  /** `better` is a strict total order: never true of equal scores (so a
      tie keeps the candidate found first), asymmetric, transitive, and
      one of two different scores is always better. */
  lemma BetterIsStrictTotalOrder(a: Score, b: Score, c: Score)
    ensures !Better(a, a)
    ensures Better(a, b) ==> !Better(b, a)
    ensures Better(a, b) && Better(b, c) ==> Better(a, c)
    ensures a != b ==> Better(a, b) || Better(b, a)
  {
  }

  /** Adding the same score to both sides keeps their order. */
  lemma PlusKeepsOrder(a: Score, b: Score, z: Score)
    ensures Better(Plus(a, z), Plus(b, z)) <==> Better(a, b)
  {
  }

  // ---------------------------------------------------------------------
  // Pieces
  // ---------------------------------------------------------------------

  /** One token of a segmentation: the characters `start..end` of the
      input, its reading, and the frequency it adds. */
  datatype Piece = Piece(start: nat, end: nat, reading: Option<string>, gain: int)

  /** The first reading and the frequency of the dictionary entry that
      `span` reaches, when that entry has a reading. */
  function DictHit(nodes: seq<Node>, span: string): Option<(string, int)> {
    match Lookup(nodes, span)
    case Some(i) =>
      if nodes[i].readings != [] then Some((nodes[i].readings[0], nodes[i].freq)) else None
    case None => None
  }

  function FirstReading(nodes: seq<Node>, span: string): Option<string> {
    match DictHit(nodes, span)
    case Some(hit) => Some(hit.0)
    case None => None
  }

  /** Alpha characters and connectors only, starting and ending with an
      alpha character. */
  predicate IsAlphaRun(alnum: char -> bool, span: string) {
    && span != []
    && (forall i | 0 <= i < |span| :: IsAlphaChar(alnum, span[i]) || IsConnector(span[i]))
    && IsAlphaChar(alnum, span[0])
    && IsAlphaChar(alnum, span[|span| - 1])
  }

  /** The three kinds of piece the segmenter considers. */
  predicate Admissible(nodes: seq<Node>, alnum: char -> bool, text: string, p: Piece) {
    && p.start < p.end <= |text|
    && var span := text[p.start..p.end];
       || (p.end == p.start + 1 && p.reading == FirstReading(nodes, span) && p.gain == 0)
       || (DictHit(nodes, span).Some?
           && p.reading == Some(DictHit(nodes, span).value.0) && p.gain == DictHit(nodes, span).value.1)
       || (DictHit(nodes, span).None? && IsAlphaRun(alnum, span) && p.reading == None && p.gain == 0)
  }

  // ---------------------------------------------------------------------
  // Segmentations
  // ---------------------------------------------------------------------

  /** The pieces follow each other from `from` to `to`. */
  predicate Chain(ps: seq<Piece>, from: nat, to: nat)
    decreases |ps|
  {
    if ps == [] then from == to else ps[0].start == from && Chain(ps[1..], ps[0].end, to)
  }

  predicate IsSegmentation(nodes: seq<Node>, alnum: char -> bool, text: string, ps: seq<Piece>, from: nat, to: nat) {
    Chain(ps, from, to) && forall i | 0 <= i < |ps| :: Admissible(nodes, alnum, text, ps[i])
  }

  /** The score of a segmentation: one token per piece and the sum of the
      pieces' frequencies. */
  function Total(ps: seq<Piece>): (s: Score)
    ensures s.count == |ps|
  {
    if ps == [] then Score(0, 0) else Plus(One(ps[0].gain), Total(ps[1..]))
  }

  /** The last piece of a non-empty chain ends it, and the pieces before
      it form a chain up to where it starts. */
  lemma {:induction false} ChainLast(ps: seq<Piece>, from: nat, to: nat)
    requires Chain(ps, from, to) && ps != []
    ensures ps[|ps| - 1].end == to && Chain(ps[..|ps| - 1], from, ps[|ps| - 1].start)
    decreases |ps|
  {
    if |ps| > 1 {
      ChainLast(ps[1..], ps[0].end, to);
      assert ps[1..][..|ps| - 2] == ps[..|ps| - 1][1..];
    }
  }

  /** Appending a piece adds one token and the piece's gain. */
  lemma {:induction false} TotalSnoc(ps: seq<Piece>, p: Piece)
    ensures Total(ps + [p]) == Plus(Total(ps), One(p.gain))
    decreases |ps|
  {
    if ps != [] {
      assert (ps + [p])[1..] == ps[1..] + [p];
      TotalSnoc(ps[1..], p);
    } else {
      assert ([] + [p])[1..] == [];
    }
  }

  /** No segmentation of the whole input scores better. */
  ghost predicate Optimal(nodes: seq<Node>, alnum: char -> bool, text: string, ps: seq<Piece>) {
    forall qs | IsSegmentation(nodes, alnum, text, qs, 0, |text|) :: !Better(Total(qs), Total(ps))
  }

  /** The tokens a segmentation yields; the Yale field stays `None`. */
  function TokensOf(text: string, ps: seq<Piece>): (ts: seq<Token>)
    requires forall i | 0 <= i < |ps| :: ps[i].start <= ps[i].end <= |text|
    ensures |ts| == |ps|
    ensures forall i | 0 <= i < |ps| :: ts[i].reading == ps[i].reading && ts[i].yale.None?
  {
    if ps == [] then []
    else [Token(text[ps[0].start..ps[0].end], ps[0].reading, None)] + TokensOf(text, ps[1..])
  }

  function Words(ts: seq<Token>): string {
    if ts == [] then [] else ts[0].word + Words(ts[1..])
  }

  /** The tokens of a segmentation spell out exactly the text it covers. */
  lemma {:induction false} TokensPartition(nodes: seq<Node>, alnum: char -> bool, text: string, ps: seq<Piece>, from: nat, to: nat)
    requires IsSegmentation(nodes, alnum, text, ps, from, to) && to <= |text|
    ensures from <= to
    ensures Words(TokensOf(text, ps)) == text[from..to]
    decreases |ps|
  {
    if ps != [] {
      var p := ps[0];
      assert Admissible(nodes, alnum, text, p);
      assert IsSegmentation(nodes, alnum, text, ps[1..], p.end, to) by {
        forall i | 0 <= i < |ps[1..]| ensures Admissible(nodes, alnum, text, ps[1..][i]) {
          assert ps[1..][i] == ps[i + 1];
        }
      }
      TokensPartition(nodes, alnum, text, ps[1..], p.end, to);
      assert text[from..to] == text[from..p.end] + text[p.end..to];
    }
  }

  // ---------------------------------------------------------------------
  // The `dp` and `track` tables
  // ---------------------------------------------------------------------

  /** The piece `track[e]` records as the last one of the best
      segmentation of the first `e` characters; its gain is what it added
      to the frequency of the cell it starts from. */
  function Chosen(dp: seq<Option<Score>>, track: seq<(nat, Option<string>)>, e: nat): Piece
    requires e < |dp| && e < |track| && track[e].0 < |dp| && dp[e].Some? && dp[track[e].0].Some?
  {
    Piece(track[e].0, e, track[e].1, dp[e].value.freq - dp[track[e].0].value.freq)
  }

  /** Cell `e` is reached by its recorded piece, one token more than the
      earlier cell that piece starts from. */
  ghost predicate Justified(nodes: seq<Node>, alnum: char -> bool, text: string,
                            dp: seq<Option<Score>>, track: seq<(nat, Option<string>)>, e: nat) {
    && e < |dp| && e < |track|
    && track[e].0 < e && dp[e].Some? && dp[track[e].0].Some?
    && Admissible(nodes, alnum, text, Chosen(dp, track, e))
    && dp[e].value.count == dp[track[e].0].value.count + 1
  }

  /** Cell `e` is reached, and no piece ending at `e` and starting at or
      after `from` improves on it from the cell where the piece starts. */
  ghost predicate Covered(nodes: seq<Node>, alnum: char -> bool, text: string, dp: seq<Option<Score>>, e: nat, from: nat) {
    && e < |dp| && dp[e].Some?
    && forall p | Admissible(nodes, alnum, text, p) && p.end == e && from <= p.start ::
         dp[p.start].Some? && !Better(Plus(dp[p.start].value, One(p.gain)), dp[e].value)
  }

  /** Every piece ending at `e` that starts after the recorded one scores
      strictly worse: the starts are tried from right to left and a tie
      does not replace what the cell holds, so among equally good pieces
      the one found first, the shortest, stays. */
  ghost predicate KeepsFirstFound(nodes: seq<Node>, alnum: char -> bool, text: string,
                                  dp: seq<Option<Score>>, track: seq<(nat, Option<string>)>, e: nat) {
    && e < |dp| && e < |track| && dp[e].Some?
    && forall p | Admissible(nodes, alnum, text, p) && p.end == e && track[e].0 < p.start ::
         dp[p.start].Some? && Better(dp[e].value, Plus(dp[p.start].value, One(p.gain)))
  }

  /** The cells before `k` are all covered from 0, justified, and keep
      the first piece found among equals. */
  ghost predicate Filled(nodes: seq<Node>, alnum: char -> bool, text: string,
                         dp: seq<Option<Score>>, track: seq<(nat, Option<string>)>, k: nat) {
    && k <= |dp| && k <= |track|
    && (forall e | 0 <= e < k :: Covered(nodes, alnum, text, dp, e, 0))
    && (forall e | 1 <= e < k :: Justified(nodes, alnum, text, dp, track, e))
    && (forall e | 1 <= e < k :: KeepsFirstFound(nodes, alnum, text, dp, track, e))
  }

  /** Filling cell `k` without touching the cells before it extends a
      filled table by one cell. */
  lemma FilledExtend(nodes: seq<Node>, alnum: char -> bool, text: string,
                     dp0: seq<Option<Score>>, track0: seq<(nat, Option<string>)>,
                     dp1: seq<Option<Score>>, track1: seq<(nat, Option<string>)>, k: nat)
    requires Filled(nodes, alnum, text, dp0, track0, k)
    requires |dp1| == |dp0| && |track1| == |track0| && k < |dp0| && k < |track0|
    requires dp1 == dp0[k := dp1[k]] && track1 == track0[k := track1[k]]
    requires Covered(nodes, alnum, text, dp1, k, 0)
    requires k >= 1 ==> Justified(nodes, alnum, text, dp1, track1, k)
    requires k >= 1 ==> KeepsFirstFound(nodes, alnum, text, dp1, track1, k)
    ensures Filled(nodes, alnum, text, dp1, track1, k + 1)
  {
    forall e | 0 <= e < k ensures Covered(nodes, alnum, text, dp1, e, 0) {
      assert Covered(nodes, alnum, text, dp0, e, 0);
      forall p | Admissible(nodes, alnum, text, p) && p.end == e
        ensures dp1[p.start].Some? && !Better(Plus(dp1[p.start].value, One(p.gain)), dp1[e].value)
      {
        assert dp1[p.start] == dp0[p.start];
      }
    }
    forall e | 1 <= e < k ensures Justified(nodes, alnum, text, dp1, track1, e) {
      assert Justified(nodes, alnum, text, dp0, track0, e);
      assert dp1[track1[e].0] == dp0[track0[e].0];
      assert Chosen(dp1, track1, e) == Chosen(dp0, track0, e);
    }
    forall e | 1 <= e < k ensures KeepsFirstFound(nodes, alnum, text, dp1, track1, e) {
      assert KeepsFirstFound(nodes, alnum, text, dp0, track0, e);
      forall p | Admissible(nodes, alnum, text, p) && p.end == e && track1[e].0 < p.start
        ensures dp1[p.start].Some? && Better(dp1[e].value, Plus(dp1[p.start].value, One(p.gain)))
      {
        assert dp1[p.start] == dp0[p.start];
      }
    }
  }

  /** One round of the inner loop of `segment` keeps the first piece found
      among equals: the cell either stays as it was or is taken over by a
      piece from `start` that beats every piece tried before. */
  lemma KeepFirstOneMore(nodes: seq<Node>, alnum: char -> bool, text: string,
                         dp0: seq<Option<Score>>, track0: seq<(nat, Option<string>)>,
                         dp1: seq<Option<Score>>, track1: seq<(nat, Option<string>)>, end: nat, start: nat)
    requires |dp0| == |dp1| && |track0| == |track1| && start < end < |dp0| && end < |track0|
    requires dp1 == dp0[end := dp1[end]]
    requires Covered(nodes, alnum, text, dp0, end, start + 1)
    requires KeepsFirstFound(nodes, alnum, text, dp0, track0, end) && track0[end].0 >= start
    requires || (dp1 == dp0 && track1 == track0)
             || (track1[end].0 == start && dp1[end].Some? && Better(dp1[end].value, dp0[end].value))
    ensures KeepsFirstFound(nodes, alnum, text, dp1, track1, end)
  {
    if dp1 != dp0 || track1 != track0 {
      forall p | Admissible(nodes, alnum, text, p) && p.end == end && track1[end].0 < p.start
        ensures dp1[p.start].Some? && Better(dp1[end].value, Plus(dp1[p.start].value, One(p.gain)))
      {
        assert dp1[p.start] == dp0[p.start];
        assert !Better(Plus(dp0[p.start].value, One(p.gain)), dp0[end].value);
      }
    }
  }

  /** One round of the inner loop of `segment`: once the candidates at
      `start` have been offered to cell `end`, which only ever improves,
      the cell is covered from `start`. */
  lemma CoverOneMore(nodes: seq<Node>, alnum: char -> bool, text: string,
                     dp0: seq<Option<Score>>, dp1: seq<Option<Score>>, end: nat, start: nat)
    requires |dp0| == |dp1| && start < end < |dp0| && end <= |text|
    requires dp1 == dp0[end := dp1[end]]
    requires Covered(nodes, alnum, text, dp0, end, start + 1)
    requires dp1[end].Some? && !Better(dp0[end].value, dp1[end].value)
    requires dp0[start].Some?
    requires start == end - 1 ==> !Better(Plus(dp0[start].value, One(0)), dp1[end].value)
    requires DictHit(nodes, text[start..end]).Some? ==>
      !Better(Plus(dp0[start].value, One(DictHit(nodes, text[start..end]).value.1)), dp1[end].value)
    requires DictHit(nodes, text[start..end]).None? && IsAlphaRun(alnum, text[start..end]) ==>
      !Better(Plus(dp0[start].value, One(0)), dp1[end].value)
    ensures Covered(nodes, alnum, text, dp1, end, start)
  {
    forall p | Admissible(nodes, alnum, text, p) && p.end == end && start <= p.start
      ensures dp1[p.start].Some? && !Better(Plus(dp1[p.start].value, One(p.gain)), dp1[end].value)
    {
      assert dp1[p.start] == dp0[p.start];
      if p.start > start {
        assert !Better(Plus(dp0[p.start].value, One(p.gain)), dp0[end].value);
      }
    }
  }

  /** The scores of a table whose cells are all reached. */
  function Values(cells: seq<Option<Score>>): (v: seq<Score>)
    requires forall i | 0 <= i < |cells| :: cells[i].Some?
    ensures |v| == |cells| && forall i | 0 <= i < |cells| :: v[i] == cells[i].value
  {
    seq(|cells|, i requires 0 <= i < |cells| => cells[i].value)
  }

  // ---------------------------------------------------------------------
  // Why the table is optimal
  // ---------------------------------------------------------------------

  /** If no piece improves on the cell where it ends, starting from the cell
      where it begins, then no chain of pieces improves on any cell: the
      dynamic programme's local choices are globally optimal. */
  lemma {:induction false} CellsBeatChains(nodes: seq<Node>, alnum: char -> bool, text: string, dp: seq<Score>,
                                           qs: seq<Piece>, from: nat, to: nat)
    requires |dp| == |text| + 1 && to <= |text|
    requires forall p | Admissible(nodes, alnum, text, p) :: !Better(Plus(dp[p.start], One(p.gain)), dp[p.end])
    requires IsSegmentation(nodes, alnum, text, qs, from, to)
    ensures from <= to
    ensures !Better(Plus(dp[from], Total(qs)), dp[to])
    decreases |qs|
  {
    if qs == [] {
      assert Plus(dp[from], Total(qs)) == dp[from];
    } else {
      var p, rest := qs[0], qs[1..];
      assert Admissible(nodes, alnum, text, p);
      assert IsSegmentation(nodes, alnum, text, rest, p.end, to) by {
        forall i | 0 <= i < |rest| ensures Admissible(nodes, alnum, text, rest[i]) {
          assert rest[i] == qs[i + 1];
        }
      }
      CellsBeatChains(nodes, alnum, text, dp, rest, p.end, to);
      var step := Plus(dp[from], One(p.gain));
      PlusKeepsOrder(step, dp[p.end], Total(rest));
      assert Plus(dp[from], Total(qs)) == Plus(step, Total(rest));
    }
  }

  /** Among equally good segmentations of a prefix of the input, the table
      keeps the one whose last token is shortest: a segmentation of the
      first `e` characters whose last piece starts after the recorded one
      scores strictly worse than cell `e`. */
  lemma LaterLastStartLoses(nodes: seq<Node>, alnum: char -> bool, text: string,
                            cells: seq<Option<Score>>, track: seq<(nat, Option<string>)>, e: nat, rs: seq<Piece>)
    requires |cells| == |track| == |text| + 1 && cells[0] == Some(Score(0, 0))
    requires Filled(nodes, alnum, text, cells, track, |text| + 1)
    requires 1 <= e <= |text|
    requires IsSegmentation(nodes, alnum, text, rs, 0, e) && rs != [] && track[e].0 < rs[|rs| - 1].start
    ensures cells[e].Some? && Better(cells[e].value, Total(rs))
  {
    AllReached(nodes, alnum, text, cells);
    var best := Values(cells);
    TableBeatsPieces(nodes, alnum, text, cells);
    var front, q := SplitLast(nodes, alnum, text, rs, e);
    CellsBeatChains(nodes, alnum, text, best, front, 0, q.start);
    assert KeepsFirstFound(nodes, alnum, text, cells, track, e);
    assert Better(best[e], Plus(best[q.start], One(q.gain)));
    WorseStaysWorse(best[e], best[q.start], Total(front), One(q.gain));
  }

  /** Every cell of a table covered from 0 is reached. */
  lemma AllReached(nodes: seq<Node>, alnum: char -> bool, text: string, cells: seq<Option<Score>>)
    requires forall e | 0 <= e < |cells| :: Covered(nodes, alnum, text, cells, e, 0)
    ensures forall e | 0 <= e < |cells| :: cells[e].Some?
  {
    forall e | 0 <= e < |cells| ensures cells[e].Some? {
      assert Covered(nodes, alnum, text, cells, e, 0);
    }
  }

  /** In a table covered from 0, no piece improves the cell where it ends
      from the cell where it starts. */
  lemma TableBeatsPieces(nodes: seq<Node>, alnum: char -> bool, text: string, cells: seq<Option<Score>>)
    requires |cells| == |text| + 1
    requires forall e | 0 <= e < |cells| :: Covered(nodes, alnum, text, cells, e, 0)
    requires forall e | 0 <= e < |cells| :: cells[e].Some?
    ensures forall p | Admissible(nodes, alnum, text, p) ::
      !Better(Plus(Values(cells)[p.start], One(p.gain)), Values(cells)[p.end])
  {
    forall p | Admissible(nodes, alnum, text, p)
      ensures !Better(Plus(Values(cells)[p.start], One(p.gain)), Values(cells)[p.end])
    {
      assert Covered(nodes, alnum, text, cells, p.end, 0);
    }
  }

  /** A non-empty segmentation is a segmentation of the text before its
      last piece, followed by that piece. */
  lemma SplitLast(nodes: seq<Node>, alnum: char -> bool, text: string, rs: seq<Piece>, to: nat) returns (front: seq<Piece>, q: Piece)
    requires IsSegmentation(nodes, alnum, text, rs, 0, to) && rs != []
    ensures rs == front + [q] && q == rs[|rs| - 1] && q.end == to
    ensures Admissible(nodes, alnum, text, q) && IsSegmentation(nodes, alnum, text, front, 0, q.start)
    ensures Total(rs) == Plus(Total(front), One(q.gain))
  {
    var n := |rs| - 1;
    front, q := rs[..n], rs[n];
    ChainLast(rs, 0, to);
    assert rs == front + [q];
    assert Admissible(nodes, alnum, text, q);
    forall i | 0 <= i < |front| ensures Admissible(nodes, alnum, text, front[i]) {
      assert front[i] == rs[i];
    }
    TotalSnoc(front, q);
  }

  /** If `x` beats `y` plus a piece and `f` does not beat `y`, then `x` beats
      `f` plus the same piece. */
  lemma WorseStaysWorse(x: Score, y: Score, f: Score, piece: Score)
    requires Better(x, Plus(y, piece)) && !Better(f, y)
    ensures Better(x, Plus(f, piece))
  {
    PlusKeepsOrder(f, y, piece);
    BetterIsStrictTotalOrder(x, Plus(y, piece), Plus(f, piece));
  }

  /** Ties are broken towards the shortest last token, at every token
      boundary: a segmentation of the text up to the end of piece `i`
      whose last piece starts later than piece `i` scores strictly worse
      than the first `i + 1` pieces. */
  ghost predicate ShortestLastOnTies(nodes: seq<Node>, alnum: char -> bool, text: string, ps: seq<Piece>) {
    forall i: int, rs: seq<Piece> | 0 <= i < |ps| && IsSegmentation(nodes, alnum, text, rs, 0, ps[i].end) && rs != []
                   && ps[i].start < rs[|rs| - 1].start ::
      Better(Total(ps[..i + 1]), Total(rs))
  }

  /** Pieces read back from the table starting at cell `from`: each ends at
      a cell whose recorded start is its own, and that cell's score is the
      score of `from` plus the pieces up to and including it. */
  ghost predicate ReadBack(text: string, track: seq<(nat, Option<string>)>, best: seq<Score>, from: nat, ps: seq<Piece>) {
    && |best| == |track| == |text| + 1 && from < |best|
    && forall i | 0 <= i < |ps| ::
         && 1 <= ps[i].end <= |text| && track[ps[i].end].0 == ps[i].start
         && Plus(best[from], Total(ps[..i + 1])) == best[ps[i].end]
  }

  /** Reading back one more piece, the one recorded at `curr`, keeps
      `ReadBack` from where that piece starts. */
  lemma ReadBackStep(text: string, track: seq<(nat, Option<string>)>, best: seq<Score>, curr: nat, p: Piece, ps: seq<Piece>)
    requires 1 <= curr <= |text| && ReadBack(text, track, best, curr, ps)
    requires p.start == track[curr].0 < curr == p.end
    requires best[curr] == Plus(best[p.start], One(p.gain))
    ensures ReadBack(text, track, best, p.start, [p] + ps)
  {
    var qs := [p] + ps;
    assert qs[..1] == [p] && Total([p][1..]) == Score(0, 0);
    forall i | 1 <= i < |qs|
      ensures Plus(best[p.start], Total(qs[..i + 1])) == best[qs[i].end]
    {
      ConsPrefixTotal(p, ps, i);
      assert qs[i] == ps[i - 1];
    }
  }

  /** The score of the first `i + 1` pieces after putting `p` in front. */
  lemma ConsPrefixTotal(p: Piece, ps: seq<Piece>, i: nat)
    requires 1 <= i <= |ps|
    ensures Total(([p] + ps)[..i + 1]) == Plus(One(p.gain), Total(ps[..i]))
  {
    assert ([p] + ps)[..i + 1][1..] == ps[..i];
  }

  /** One step of reading the table back: the recorded piece that ends at
      `curr` extends the pieces read so far to a segmentation from where it
      starts, keeps the score accounting, and yields one more token in
      front. */
  lemma PrependChosen(nodes: seq<Node>, alnum: char -> bool, text: string, cells: seq<Option<Score>>,
                      track: seq<(nat, Option<string>)>, curr: nat, ps: seq<Piece>, ts: seq<Token>)
    requires |cells| == |track| == |text| + 1 && forall i | 0 <= i < |cells| :: cells[i].Some?
    requires 1 <= curr <= |text| && Justified(nodes, alnum, text, cells, track, curr)
    requires IsSegmentation(nodes, alnum, text, ps, curr, |text|)
    requires Values(cells)[|text|] == Plus(Values(cells)[curr], Total(ps))
    requires ReadBack(text, track, Values(cells), curr, ps)
    requires ts == TokensOf(text, ps)
    ensures var p, prev := Chosen(cells, track, curr), track[curr].0;
      && prev < curr
      && IsSegmentation(nodes, alnum, text, [p] + ps, prev, |text|)
      && Values(cells)[|text|] == Plus(Values(cells)[prev], Total([p] + ps))
      && ReadBack(text, track, Values(cells), prev, [p] + ps)
      && [Token(text[prev..curr], track[curr].1, None)] + ts == TokensOf(text, [p] + ps)
  {
    var p := Chosen(cells, track, curr);
    PrependPiece(nodes, alnum, text, p, ps, |text|);
    assert Values(cells)[curr] == Plus(Values(cells)[p.start], One(p.gain));
    ReadBackStep(text, track, Values(cells), curr, p, ps);
  }

  /** An admissible piece in front of a segmentation that starts where the
      piece ends: a segmentation from the piece's start, scoring one token
      and the piece's gain more, with the piece's token in front. */
  lemma PrependPiece(nodes: seq<Node>, alnum: char -> bool, text: string, p: Piece, ps: seq<Piece>, to: nat)
    requires Admissible(nodes, alnum, text, p) && IsSegmentation(nodes, alnum, text, ps, p.end, to)
    ensures IsSegmentation(nodes, alnum, text, [p] + ps, p.start, to)
    ensures Total([p] + ps) == Plus(One(p.gain), Total(ps))
    ensures TokensOf(text, [p] + ps) == [Token(text[p.start..p.end], p.reading, None)] + TokensOf(text, ps)
  {
    var qs := [p] + ps;
    assert qs[1..] == ps;
    forall i | 0 <= i < |qs| ensures Admissible(nodes, alnum, text, qs[i]) {
      if i > 0 { assert qs[i] == ps[i - 1]; }
    }
  }

  /** Pieces read back from the start of a filled table break ties towards
      the shortest last token. */
  lemma TiesFromTable(nodes: seq<Node>, alnum: char -> bool, text: string,
                      cells: seq<Option<Score>>, track: seq<(nat, Option<string>)>, ps: seq<Piece>)
    requires |cells| == |track| == |text| + 1 && cells[0] == Some(Score(0, 0))
    requires Filled(nodes, alnum, text, cells, track, |text| + 1)
    requires forall i | 0 <= i < |cells| :: cells[i].Some?
    requires ReadBack(text, track, Values(cells), 0, ps)
    ensures ShortestLastOnTies(nodes, alnum, text, ps)
  {
    forall i: int, rs: seq<Piece> | 0 <= i < |ps| && IsSegmentation(nodes, alnum, text, rs, 0, ps[i].end) && rs != []
                   && ps[i].start < rs[|rs| - 1].start
      ensures Better(Total(ps[..i + 1]), Total(rs))
    {
      LaterLastStartLoses(nodes, alnum, text, cells, track, ps[i].end, rs);
    }
  }

  /** A segmentation whose score is the final cell of a filled table is
      optimal. */
  lemma TableOptimal(nodes: seq<Node>, alnum: char -> bool, text: string,
                     cells: seq<Option<Score>>, ps: seq<Piece>)
    requires |cells| == |text| + 1 && cells[0] == Some(Score(0, 0))
    requires forall e | 0 <= e < |cells| :: Covered(nodes, alnum, text, cells, e, 0)
    requires forall i | 0 <= i < |cells| :: cells[i].Some?
    requires Values(cells)[|text|] == Plus(Values(cells)[0], Total(ps))
    ensures Optimal(nodes, alnum, text, ps)
  {
    var best := Values(cells);
    TableBeatsPieces(nodes, alnum, text, cells);
    forall qs | IsSegmentation(nodes, alnum, text, qs, 0, |text|) ensures !Better(Total(qs), Total(ps)) {
      CellsBeatChains(nodes, alnum, text, best, qs, 0, |text|);
      assert Plus(best[0], Total(qs)) == Total(qs);
    }
  }

  /** An optimal segmentation has the fewest tokens of any segmentation, and
      among segmentations with as few tokens the highest total
      frequency. */
  lemma OptimalMeans(nodes: seq<Node>, alnum: char -> bool, text: string, ps: seq<Piece>, qs: seq<Piece>)
    requires Optimal(nodes, alnum, text, ps)
    requires IsSegmentation(nodes, alnum, text, qs, 0, |text|)
    ensures |ps| <= |qs|
    ensures |ps| == |qs| ==> Total(ps).freq >= Total(qs).freq
  {
    assert !Better(Total(qs), Total(ps));
  }

  /** Every character on its own: a segmentation that always exists. */
  function Singles(nodes: seq<Node>, text: string, from: nat): (ps: seq<Piece>)
    requires from <= |text|
    ensures |ps| == |text| - from
    decreases |text| - from
  {
    if from == |text| then []
    else [Piece(from, from + 1, FirstReading(nodes, text[from..from + 1]), 0)] + Singles(nodes, text, from + 1)
  }

  lemma {:induction false} SinglesSegment(nodes: seq<Node>, alnum: char -> bool, text: string, from: nat)
    requires from <= |text|
    ensures IsSegmentation(nodes, alnum, text, Singles(nodes, text, from), from, |text|)
    decreases |text| - from
  {
    if from < |text| {
      SinglesSegment(nodes, alnum, text, from + 1);
      var ps := Singles(nodes, text, from);
      assert ps[1..] == Singles(nodes, text, from + 1);
      assert Admissible(nodes, alnum, text, ps[0]);
      forall i | 1 <= i < |ps| ensures Admissible(nodes, alnum, text, ps[i]) {
        assert ps[i] == ps[1..][i - 1];
      }
    }
  }

  /** An optimal segmentation has at most one token per character. */
  lemma AtMostOneTokenPerCharacter(nodes: seq<Node>, alnum: char -> bool, text: string, ps: seq<Piece>)
    requires Optimal(nodes, alnum, text, ps)
    ensures |ps| <= |text|
  {
    SinglesSegment(nodes, alnum, text, 0);
    OptimalMeans(nodes, alnum, text, ps, Singles(nodes, text, 0));
  }

  /** A non-empty input that is one dictionary word with a reading, or an
      alpha run, is covered by a single piece. */
  lemma WholeSpanPiece(nodes: seq<Node>, alnum: char -> bool, text: string) returns (whole: Piece)
    requires text != [] && (DictHit(nodes, text).Some? || IsAlphaRun(alnum, text))
    ensures IsSegmentation(nodes, alnum, text, [whole], 0, |text|)
  {
    var hit := DictHit(nodes, text);
    whole := if hit.Some? then Piece(0, |text|, Some(hit.value.0), hit.value.1) else Piece(0, |text|, None, 0);
    assert text[0..|text|] == text;
    assert Admissible(nodes, alnum, text, whole);
    assert [whole][1..] == [];
  }

  /** When the whole (non-empty) input is one dictionary word with a
      reading, or an alpha run, an optimal segmentation keeps it as a single
      token. */
  lemma WholeMatchIsOneToken(nodes: seq<Node>, alnum: char -> bool, text: string, ps: seq<Piece>)
    requires Optimal(nodes, alnum, text, ps) && IsSegmentation(nodes, alnum, text, ps, 0, |text|)
    requires text != [] && (DictHit(nodes, text).Some? || IsAlphaRun(alnum, text))
    ensures |ps| == 1 && ps[0].start == 0 && ps[0].end == |text|
  {
    var whole := WholeSpanPiece(nodes, alnum, text);
    OptimalMeans(nodes, alnum, text, ps, [whole]);
    assert ps != [] && ps[0].start == 0;
    assert ps[1..] == [] && Chain(ps[1..], ps[0].end, |text|);
  }

  /** Which spans are alpha runs, for a classifier that accepts lower-case
      ASCII letters and digits and rejects `%` and the connectors themselves
      (as `char::is_alphanumeric` does): connectors may sit anywhere
      inside a run, even next to each other, but not at either end, and
      `%` is never part of one. */
  lemma AlphaRunExamples(alnum: char -> bool)
    requires forall c | 'a' <= c <= 'z' || '0' <= c <= '9' :: alnum(c)
    requires !alnum('%') && !alnum('-')
    ensures IsAlphaRun(alnum, "part-time") && IsAlphaRun(alnum, "rust_canto") && IsAlphaRun(alnum, "i'm")
    ensures IsAlphaRun(alnum, "a--b")
    ensures !IsAlphaRun(alnum, "-abc") && !IsAlphaRun(alnum, "abc-") && !IsAlphaRun(alnum, "3%")
  {
    assert IsAlphaChar(alnum, '3') && !IsAlphaChar(alnum, '%') && !IsConnector('%');
    assert !IsAlphaChar(alnum, '-');
  }

  /** A hyphenated word is kept as one token whether or not the dictionary
      knows it. */
  lemma HyphenatedWordIsOneToken(nodes: seq<Node>, alnum: char -> bool, ps: seq<Piece>)
    requires forall c | 'a' <= c <= 'z' :: alnum(c)
    requires Optimal(nodes, alnum, "part-time", ps) && IsSegmentation(nodes, alnum, "part-time", ps, 0, 9)
    ensures |ps| == 1 && ps[0].start == 0 && ps[0].end == 9
  {
    var text := "part-time";
    assert forall i | 0 <= i < |text| :: IsAlphaChar(alnum, text[i]) || IsConnector(text[i]);
    assert IsAlphaRun(alnum, text);
    WholeMatchIsOneToken(nodes, alnum, text, ps);
  }
}
