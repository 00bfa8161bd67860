/**
 * Jyutping to Yale conversion of Cantonese syllables (src/yale.rs).
 *
 * A syllable is split into its body and trailing tone digit, the initial is
 * respelled by ordered prefix matching, the final by an ordered chain of
 * substring replacements, a bare `aa` collapses to `a`, and the result is
 * emitted either with the tone digit or with a combining tone mark after the
 * first vowel of the nucleus plus an `h` for the low register.
 *
 * Canonical composition (NFC) of the output is not modelled: the diacritic
 * form keeps each combining mark as its own code point right after the base
 * vowel, which is what the composition step receives.
 */
module Yale {
  import opened Wrappers
  import opened Text

  // ---------------------------------------------------------------------
  // Tone
  // ---------------------------------------------------------------------

  predicate IsAsciiDigit(c: char) {
    '0' <= c <= '9'
  }

  /** The ASCII digit that spells tone number `tone`. */
  function DigitChar(tone: nat): (c: char)
    requires tone <= 9
    ensures IsAsciiDigit(c)
  {
    ('0' as int + tone) as char
  }

  /** `split_tone`: the body and the tone number, when the last character is
      an ASCII digit; any digit 0 to 9 is accepted. */
  function SplitTone(s: string): (r: Option<(string, nat)>)
    ensures r.Some? <==> s != [] && IsAsciiDigit(s[|s| - 1])
    ensures r.Some? ==> r.value.1 <= 9 && s == r.value.0 + [DigitChar(r.value.1)]
  {
    if s != [] && IsAsciiDigit(s[|s| - 1]) then
      Some((s[..|s| - 1], s[|s| - 1] as int - '0' as int))
    else
      None
  }

  // ---------------------------------------------------------------------
  // Initial
  // ---------------------------------------------------------------------

  /** Initials spelled the same in both systems. `convert_initial` tries
      them one by one as prefixes; all are single letters, so the first that
      matches is the body's first letter whenever it is one of these. */
  predicate IsSameInitial(c: char) {
    c in "bpmfdtnlgkhsw"
  }

  /** The Jyutping spelling of a Yale initial: `j`, `ch` and `y` are the
      Yale spellings of Jyutping `z`, `c` and `j`; all others are shared. */
  function JyutpingInitial(yale: string): string {
    if yale == "j" then "z"
    else if yale == "ch" then "c"
    else if yale == "y" then "j"
    else yale
  }

  /** Letters that begin some Jyutping initial. */
  predicate IsInitialLetter(c: char) {
    c in "bpmfdtnlgkhswzcj"
  }

  /** The Yale spelling of a one-letter Jyutping initial: `z`, `c` and `j`
      are respelled `j`, `ch` and `y`; the other thirteen are kept. */
  function YaleLetter(c: char): (y: string)
    requires IsInitialLetter(c)
    ensures JyutpingInitial(y) == [c]
    ensures y != [c] <==> c in "zcj"
  {
    if c == 'z' then "j"
    else if c == 'c' then "ch"
    else if c == 'j' then "y"
    else [c]
  }

  /** The body begins with one of the two-letter initials. */
  predicate StartsWithCluster(body: string) {
    |body| >= 2 && body[..2] in ["gw", "kw", "ng"]
  }

  /** `convert_initial`: the Yale initial and the remaining final. Reading
      the Yale initial back in Jyutping and prepending it to the rest gives
      the body again; outside the two-letter clusters exactly one initial
      letter is taken and respelled. */
  function ConvertInitial(body: string): (r: (string, string))
    ensures body == JyutpingInitial(r.0) + r.1
    ensures body != [] && IsInitialLetter(body[0]) && !StartsWithCluster(body) ==>
      |JyutpingInitial(r.0)| == 1 && r == (YaleLetter(body[0]), body[1..])
  {
    var n := |body|;
    if n >= 2 && body[0] == 'g' && body[1] == 'w' then ("gw", body[2..])
    else if n >= 2 && body[0] == 'k' && body[1] == 'w' then ("kw", body[2..])
    else if n >= 2 && body[0] == 'n' && body[1] == 'g' then ("ng", body[2..])
    else if n >= 1 && body[0] == 'z' then ("j", body[1..])
    else if n >= 1 && body[0] == 'c' then ("ch", body[1..])
    else if n >= 1 && body[0] == 'j' then ("y", body[1..])
    else if n >= 1 && IsSameInitial(body[0]) then ([body[0]], body[1..])
    else ("", body)
  }

  /** The two-letter clusters are tried before any single letter, so `gw`,
      `kw` and `ng` are never split into `g`, `k` or `n` plus a final. */
  lemma {:induction false} ClustersBeforeSingleLetters(body: string)
    ensures "gw" <= body ==> ConvertInitial(body) == ("gw", body[2..])
    ensures "kw" <= body ==> ConvertInitial(body) == ("kw", body[2..])
    ensures "ng" <= body ==> ConvertInitial(body) == ("ng", body[2..])
  {
    if "gw" <= body {
      assert body[0] == "gw"[0] && body[1] == "gw"[1];
    }
    if "kw" <= body {
      assert body[0] == "kw"[0] && body[1] == "kw"[1];
    }
    if "ng" <= body {
      assert body[0] == "ng"[0] && body[1] == "ng"[1];
    }
  }

  /** No initial matches exactly when the body is empty or begins with a
      letter outside the initials; the initial is then empty and the whole
      body is the final. */
  lemma {:induction false} VowelOnset(body: string)
    ensures ConvertInitial(body).0 == "" <==> body == [] || !IsInitialLetter(body[0])
    ensures ConvertInitial(body).0 == "" ==> ConvertInitial(body).1 == body
  {
  }

  // ---------------------------------------------------------------------
  // Final
  // ---------------------------------------------------------------------

  /** `convert_final`: the five replacements applied in order. */
  function ConvertFinal(fin: string): (r: string)
    ensures |r| == |fin|
  {
    var a := ReplaceAll(fin, "eoi", "eui");
    var b := ReplaceAll(a, "oeng", "eung");
    var c := ReplaceAll(b, "oek", "euk");
    var d := ReplaceAll(c, "oe", "eu");
    ReplaceAll(d, "eo", "eu")
  }

  /** A final in which neither `oe` nor `eo` occurs is left unchanged: every
      rule's pattern contains one of the two. */
  lemma {:induction false} FinalWithoutOeUnchanged(fin: string)
    requires forall i: nat :: !MatchAt(fin, i, "oe") && !MatchAt(fin, i, "eo")
    ensures ConvertFinal(fin) == fin
  {
    forall i: nat ensures !MatchAt(fin, i, "eoi") && !MatchAt(fin, i, "oeng") && !MatchAt(fin, i, "oek") {
      MatchAtPrefix(fin, i, "eoi", "eo");
      MatchAtPrefix(fin, i, "oeng", "oe");
      MatchAtPrefix(fin, i, "oek", "oe");
    }
    ReplaceAllAbsent(fin, "eoi", "eui");
    ReplaceAllAbsent(fin, "oeng", "eung");
    ReplaceAllAbsent(fin, "oek", "euk");
    ReplaceAllAbsent(fin, "oe", "eu");
    ReplaceAllAbsent(fin, "eo", "eu");
  }

  /** A final without the letter `o` is left unchanged. */
  lemma {:induction false} FinalWithoutO(fin: string)
    requires forall i | 0 <= i < |fin| :: fin[i] != 'o'
    ensures ConvertFinal(fin) == fin
  {
    forall i: nat ensures !MatchAt(fin, i, "oe") && !MatchAt(fin, i, "eo") {
      if i + 2 <= |fin| {
        assert fin[i..i + 2][0] == fin[i] && fin[i..i + 2][1] == fin[i + 1];
      }
    }
    FinalWithoutOeUnchanged(fin);
  }

  /** `eoi` is respelled `eui`. */
  lemma {:induction false} FinalRewriteEoi()
    ensures ConvertFinal("eoi") == "eui"
  {
  }

  /** `eon` is respelled `eun`. */
  lemma {:induction false} FinalRewriteEon()
    ensures ConvertFinal("eon") == "eun"
  {
    assert "eon" == ['e', 'o', 'n'] && "eun" == ['e', 'u', 'n'];
    EoBeforeCoda('n');
  }

  /** `eot` is respelled `eut`. */
  lemma {:induction false} FinalRewriteEot()
    ensures ConvertFinal("eot") == "eut"
  {
    assert "eot" == ['e', 'o', 't'] && "eut" == ['e', 'u', 't'];
    EoBeforeCoda('t');
  }

  /** Only the last rule applies to `eo` before a consonant other than `i`
      and `e`. */
  lemma EoBeforeCoda(x: char)
    requires x != 'i' && x != 'e'
    ensures ConvertFinal(['e', 'o', x]) == ['e', 'u', x]
  {
    var s := ['e', 'o', x];
    var tail := ['o', x];
    assert s[1..] == tail && tail[1..] == [x];
    assert s[..3] == s && s[..3] != "eoi" && s[..3] != "oek" && s[..2] == "eo";
    assert tail[..2] == tail && tail[..2] != "oe";
    assert ReplaceAll(s, "eoi", "eui") == s by {
      assert ReplaceAll(tail, "eoi", "eui") == tail;
    }
    assert ReplaceAll(s, "oeng", "eung") == s;
    assert ReplaceAll(s, "oek", "euk") == s by {
      assert ReplaceAll(tail, "oek", "euk") == tail;
    }
    assert ReplaceAll(s, "oe", "eu") == s by {
      assert ReplaceAll([x], "oe", "eu") == [x];
      assert ReplaceAll(tail, "oe", "eu") == tail;
    }
    assert ReplaceAll(s, "eo", "eu") == ['e', 'u', x] by {
      assert s[2..] == [x] && ReplaceAll([x], "eo", "eu") == [x];
    }
  }

  /** The bare final `oe` is respelled `eu`. */
  lemma {:induction false} FinalRewriteOe()
    ensures ConvertFinal("oe") == "eu"
  {
  }

  /** `oeng` is respelled `eung`. */
  lemma {:induction false} FinalRewriteOeng()
    ensures ConvertFinal("oeng") == "eung"
  {
    assert ReplaceAll("oeng", "eoi", "eui") == "oeng" by {
      assert "oeng"[..3][0] != "eoi"[0] && "oeng"[1..] == "eng";
      assert "eng"[..3][1] != "eoi"[1] && "eng"[1..] == "ng";
    }
    assert ReplaceAll("oeng", "oeng", "eung") == "eung" by {
      assert "oeng"[..4] == "oeng" && "oeng"[4..] == [];
    }
    assert ReplaceAll("eung", "oek", "euk") == "eung" by {
      assert "eung"[..3][0] != "oek"[0] && "eung"[1..] == "ung";
      assert "ung"[..3][0] != "oek"[0] && "ung"[1..] == "ng";
    }
    var fin := "eung";
    forall i: nat ensures !MatchAt(fin, i, "oe") && !MatchAt(fin, i, "eo") {
      if i + 2 <= |fin| {
        assert fin[i..i + 2][0] == fin[i] && fin[i..i + 2][1] == fin[i + 1];
      }
    }
    ReplaceAllAbsent(fin, "oe", "eu");
    ReplaceAllAbsent(fin, "eo", "eu");
  }

  /** `oek` is respelled `euk`. */
  lemma {:induction false} FinalRewriteOek()
    ensures ConvertFinal("oek") == "euk"
  {
  }

  /** A bare `aa` final becomes `a`; every other final is kept. */
  function CollapseBareAa(fin: string): (r: string)
    ensures r == "a" <==> fin == "aa" || fin == "a"
    ensures fin != "aa" ==> r == fin
  {
    if fin == "aa" then "a" else fin
  }

  // ---------------------------------------------------------------------
  // Diacritic form
  // ---------------------------------------------------------------------

  /** The codas `split_nucleus_coda` tries, in its order. */
  const Codas: seq<string> := ["ng", "p", "t", "k", "m", "n"]

  predicate EndsWith(s: string, suffix: string) {
    |suffix| <= |s| && s[|s| - |suffix|..] == suffix
  }

  /** `split_nucleus_coda`: the final is the nucleus followed by the coda,
      which is the first of `ng, p, t, k, m, n` the final ends with (tried in
      that order), or empty. The single-letter codas are distinct letters,
      so trying them in turn amounts to testing the last letter. */
  function SplitNucleusCoda(fin: string): (r: (string, string))
    ensures r.0 + r.1 == fin
    ensures r.1 in Codas || r.1 == []
    ensures r.1 == [] <==> forall i | 0 <= i < |Codas| :: !EndsWith(fin, Codas[i])
  {
    var n := |fin|;
    if n >= 2 && fin[n - 2] == 'n' && fin[n - 1] == 'g' then (fin[..n - 2], "ng")
    else if n >= 1 && fin[n - 1] in "ptkmn" then (fin[..n - 1], [fin[n - 1]])
    else (fin, [])
  }

  /** No final ends with two different codas (their last letters differ),
      so a split into a nucleus and a coda of that kind, empty only when no
      coda fits, is the one `split_nucleus_coda` returns. */
  lemma {:induction false} CodaDetermined(fin: string, nucleus: string, coda: string)
    requires nucleus + coda == fin && (coda in Codas || coda == [])
    requires coda == [] <==> forall i | 0 <= i < |Codas| :: !EndsWith(fin, Codas[i])
    ensures SplitNucleusCoda(fin) == (nucleus, coda)
  {
    var r := SplitNucleusCoda(fin);
    if coda == [] {
      assert nucleus == fin;
    } else {
      assert EndsWith(fin, coda) && EndsWith(fin, r.1) by {
        assert fin[|fin| - |coda|..] == coda;
        assert fin[|fin| - |r.1|..] == r.1;
      }
      assert coda[|coda| - 1] == fin[|fin| - 1] == r.1[|r.1| - 1];
      assert coda == r.1;
      assert nucleus == fin[..|fin| - |coda|] == r.0;
    }
  }

  predicate IsVowel(c: char) {
    c in "aeiou"
  }

  /** The combining marks the converter emits. */
  predicate IsMark(c: char) {
    c == '\U{0304}' || c == '\U{0301}' || c == '\U{0300}'
  }

  /** Tone 1 takes a macron, tones 2 and 5 an acute, tone 4 a grave accent;
      the others take no mark. */
  function ToneMark(tone: nat): (m: Option<char>)
    ensures m.Some? <==> tone == 1 || tone == 2 || tone == 4 || tone == 5
    ensures m.Some? ==> IsMark(m.value)
  {
    if tone == 1 then Some('\U{0304}')
    else if tone == 2 then Some('\U{0301}')
    else if tone == 4 then Some('\U{0300}')
    else if tone == 5 then Some('\U{0301}')
    else None
  }

  function MarkText(m: Option<char>): string {
    match m
    case Some(d) => [d]
    case None => []
  }

  /** Index of the first vowel of `s`, if any. */
  function FirstVowel(s: string): (r: Option<nat>)
    ensures r.Some? ==> r.value < |s|
  {
    if s == [] then None
    else if IsVowel(s[0]) then Some(0)
    else match FirstVowel(s[1..])
      case Some(v) => Some(v + 1)
      case None => None
  }

  /** The nucleus with the mark (if any) right after its first vowel. */
  function MarkFirstVowel(nucleus: string, m: Option<char>): string {
    match FirstVowel(nucleus)
    case Some(v) => nucleus[..v + 1] + MarkText(m) + nucleus[v + 1..]
    case None => nucleus
  }

  /** `h` for the low register (tone 4 and above). */
  function LowRegisterH(tone: nat): string {
    if tone >= 4 then "h" else ""
  }

  /** `FirstVowel` finds a vowel with no vowel before it, and finds none
      only in a vowel-free string. */
  lemma {:induction false} FirstVowelIsFirst(s: string)
    ensures FirstVowel(s).Some? ==>
      IsVowel(s[FirstVowel(s).value]) && forall j | 0 <= j < FirstVowel(s).value :: !IsVowel(s[j])
    ensures FirstVowel(s).None? ==> forall j | 0 <= j < |s| :: !IsVowel(s[j])
    decreases |s|
  {
    if s != [] && !IsVowel(s[0]) {
      FirstVowelIsFirst(s[1..]);
      assert forall j | 1 <= j < |s| :: s[j] == s[1..][j - 1];
    }
  }

  /** Adding a character to the nucleus either keeps its first vowel or,
      when there was none and the character is a vowel, makes it the first. */
  lemma {:induction false} FirstVowelSnoc(p: string, ch: char)
    ensures FirstVowel(p + [ch]) ==
      if FirstVowel(p).Some? then FirstVowel(p)
      else if IsVowel(ch) then Some(|p|)
      else None
    decreases |p|
  {
    if p != [] {
      assert (p + [ch])[1..] == p[1..] + [ch];
      FirstVowelSnoc(p[1..], ch);
    }
  }

  /** Marking a nucleus grown by one character: the character is appended,
      followed by the mark exactly when it is the first vowel. */
  lemma {:induction false} MarkFirstVowelSnoc(p: string, ch: char, m: Option<char>)
    ensures MarkFirstVowel(p + [ch], m) ==
      MarkFirstVowel(p, m) + [ch] + (if FirstVowel(p).None? && IsVowel(ch) then MarkText(m) else [])
  {
    var q := p + [ch];
    FirstVowelSnoc(p, ch);
    match FirstVowel(p)
    case Some(v) =>
      var t := MarkText(m);
      assert q[..v + 1] == p[..v + 1];
      assert q[v + 1..] == p[v + 1..] + [ch];
      assert MarkFirstVowel(q, m) == p[..v + 1] + t + (p[v + 1..] + [ch]);
      assert MarkFirstVowel(p, m) == p[..v + 1] + t + p[v + 1..];
    case None =>
      if IsVowel(ch) {
        assert q[..|p| + 1] == q;
        assert q[|p| + 1..] == [];
        assert MarkFirstVowel(q, m) == q + MarkText(m) + [];
      }
  }

  /** What `apply_diacritic` returns: the initial, the marked nucleus, the
      register `h`, then the coda. */
  function DiacriticForm(initial: string, fin: string, tone: nat): string {
    var split := SplitNucleusCoda(fin);
    initial + MarkFirstVowel(split.0, ToneMark(tone)) + LowRegisterH(tone) + split.1
  }

  /** One more nucleus character in the loop of `ApplyDiacritic`. */
  lemma MarkStep(initial: string, nucleus: string, k: nat, m: Option<char>)
    requires k < |nucleus|
    ensures FirstVowel(nucleus[..k + 1]).Some? == (FirstVowel(nucleus[..k]).Some? || IsVowel(nucleus[k]))
    ensures initial + MarkFirstVowel(nucleus[..k + 1], m) ==
      initial + MarkFirstVowel(nucleus[..k], m) + [nucleus[k]]
        + (if FirstVowel(nucleus[..k]).None? && IsVowel(nucleus[k]) then MarkText(m) else [])
  {
    assert nucleus[..k + 1] == nucleus[..k] + [nucleus[k]];
    MarkFirstVowelSnoc(nucleus[..k], nucleus[k], m);
    FirstVowelSnoc(nucleus[..k], nucleus[k]);
  }

  /** `apply_diacritic`: copies the nucleus character by character, emitting
      the mark after the first vowel only, then the `h` and the coda. */
  method ApplyDiacritic(initial: string, fin: string, tone: nat) returns (result: string)
    ensures result == DiacriticForm(initial, fin, tone)
  {
    var lowRegister := tone >= 4;
    var diacritic := ToneMark(tone);
    var split := SplitNucleusCoda(fin);
    var nucleus, coda := split.0, split.1;
    result := initial;
    var marked := false;
    for k := 0 to |nucleus|
      invariant marked == FirstVowel(nucleus[..k]).Some?
      invariant result == initial + MarkFirstVowel(nucleus[..k], diacritic)
    {
      var ch := nucleus[k];
      ghost var before, extra := result, if !marked && IsVowel(ch) then MarkText(diacritic) else [];
      MarkStep(initial, nucleus, k, diacritic);
      result := result + [ch];
      if !marked && IsVowel(ch) {
        if diacritic.Some? {
          result := result + [diacritic.value];
        }
        marked := true;
      }
      assert result == before + [ch] + extra;
    }
    assert nucleus[..|nucleus|] == nucleus;
    if lowRegister {
      result := result + "h";
    }
    result := result + coda;
  }

  /** Removes every combining mark. */
  function StripMarks(s: string): string {
    if s == [] then []
    else if IsMark(s[0]) then StripMarks(s[1..])
    else [s[0]] + StripMarks(s[1..])
  }

  lemma {:induction false} StripMarksAppend(a: string, b: string)
    ensures StripMarks(a + b) == StripMarks(a) + StripMarks(b)
    decreases |a|
  {
    if a != [] {
      assert (a + b)[0] == a[0];
      assert (a + b)[1..] == a[1..] + b;
      StripMarksAppend(a[1..], b);
    } else {
      assert a + b == b;
    }
  }

  lemma {:induction false} StripMarksUnmarked(s: string)
    requires forall i | 0 <= i < |s| :: !IsMark(s[i])
    ensures StripMarks(s) == s
    decreases |s|
  {
    if s != [] {
      StripMarksUnmarked(s[1..]);
    }
  }

  /** Number of combining marks in `s`. */
  function CountMarks(s: string): nat {
    if s == [] then 0 else (if IsMark(s[0]) then 1 else 0) + CountMarks(s[1..])
  }

  lemma {:induction false} CountMarksAppend(a: string, b: string)
    ensures CountMarks(a + b) == CountMarks(a) + CountMarks(b)
    decreases |a|
  {
    if a != [] {
      assert (a + b)[0] == a[0];
      assert (a + b)[1..] == a[1..] + b;
      CountMarksAppend(a[1..], b);
    } else {
      assert a + b == b;
    }
  }

  lemma {:induction false} CountMarksUnmarked(s: string)
    requires forall i | 0 <= i < |s| :: !IsMark(s[i])
    ensures CountMarks(s) == 0
    decreases |s|
  {
    if s != [] {
      CountMarksUnmarked(s[1..]);
    }
  }

  /** Marks put between two mark-free strings are all that is removed, and
      all that is counted. */
  lemma {:induction false} MarksBetween(a: string, mark: string, b: string)
    requires forall i | 0 <= i < |a| :: !IsMark(a[i])
    requires forall i | 0 <= i < |b| :: !IsMark(b[i])
    requires |mark| <= 1 && forall i | 0 <= i < |mark| :: IsMark(mark[i])
    ensures StripMarks(a + mark + b) == a + b
    ensures CountMarks(a + mark + b) == |mark|
  {
    StripMarksAppend(a + mark, b);
    StripMarksAppend(a, mark);
    StripMarksUnmarked(a);
    StripMarksUnmarked(b);
    CountMarksAppend(a + mark, b);
    CountMarksAppend(a, mark);
    CountMarksUnmarked(a);
    CountMarksUnmarked(b);
    if mark != [] {
      assert mark[1..] == [];
    }
  }

  /** Taking the marks out of a marked mark-free nucleus gives it back; the
      nucleus carries one mark when there is a mark and a vowel to carry it,
      none otherwise. */
  lemma {:induction false} MarkedNucleus(nucleus: string, m: Option<char>)
    requires forall i | 0 <= i < |nucleus| :: !IsMark(nucleus[i])
    requires m.Some? ==> IsMark(m.value)
    ensures StripMarks(MarkFirstVowel(nucleus, m)) == nucleus
    ensures CountMarks(MarkFirstVowel(nucleus, m)) == if m.Some? && FirstVowel(nucleus).Some? then 1 else 0
  {
    var v := FirstVowel(nucleus);
    if v.Some? {
      var head, tail := nucleus[..v.value + 1], nucleus[v.value + 1..];
      assert forall i | 0 <= i < |head| :: head[i] == nucleus[i];
      assert forall i | 0 <= i < |tail| :: tail[i] == nucleus[v.value + 1 + i];
      MarksBetween(head, MarkText(m), tail);
      assert head + tail == nucleus;
    } else {
      StripMarksUnmarked(nucleus);
      CountMarksUnmarked(nucleus);
    }
  }

  /** Taking the marks out of the diacritic form leaves the initial, the
      nucleus, an `h` exactly when the tone is 4 or above, and the coda,
      where nucleus and coda make up the final; at most one mark was
      there: one when the tone is 1, 2, 4 or 5 and the nucleus has a vowel,
      none otherwise (tones 3 and 6 never get one). */
  lemma {:induction false} DiacriticWithoutMarks(initial: string, fin: string, tone: nat)
    requires forall i | 0 <= i < |initial| :: !IsMark(initial[i])
    requires forall i | 0 <= i < |fin| :: !IsMark(fin[i])
    ensures var split := SplitNucleusCoda(fin);
      && split.0 + split.1 == fin
      && StripMarks(DiacriticForm(initial, fin, tone))
         == initial + split.0 + (if tone >= 4 then "h" else "") + split.1
      && CountMarks(DiacriticForm(initial, fin, tone))
         == if (tone == 1 || tone == 2 || tone == 4 || tone == 5) && FirstVowel(split.0).Some? then 1 else 0
  {
    var split := SplitNucleusCoda(fin);
    var nucleus, coda := split.0, split.1;
    assert forall i | 0 <= i < |nucleus| :: nucleus[i] == fin[i];
    assert forall i | 0 <= i < |coda| :: coda[i] == fin[|nucleus| + i];
    MarkedNucleus(nucleus, ToneMark(tone));
    StripParts(initial, MarkFirstVowel(nucleus, ToneMark(tone)), LowRegisterH(tone), coda);
    CountParts(initial, MarkFirstVowel(nucleus, ToneMark(tone)), LowRegisterH(tone), coda);
  }

  /** Stripping marks from four pieces of which only the second may have
      any strips that one only. */
  lemma StripParts(a: string, b: string, c: string, d: string)
    requires forall i | 0 <= i < |a| :: !IsMark(a[i])
    requires forall i | 0 <= i < |c| :: !IsMark(c[i])
    requires forall i | 0 <= i < |d| :: !IsMark(d[i])
    ensures StripMarks(a + b + c + d) == a + StripMarks(b) + c + d
  {
    StripMarksAppend(a + b + c, d);
    StripMarksAppend(a + b, c);
    StripMarksAppend(a, b);
    StripMarksUnmarked(a);
    StripMarksUnmarked(c);
    StripMarksUnmarked(d);
  }

  /** The marks of four pieces of which only the second may have any are
      that one's. */
  lemma CountParts(a: string, b: string, c: string, d: string)
    requires forall i | 0 <= i < |a| :: !IsMark(a[i])
    requires forall i | 0 <= i < |c| :: !IsMark(c[i])
    requires forall i | 0 <= i < |d| :: !IsMark(d[i])
    ensures CountMarks(a + b + c + d) == CountMarks(b)
  {
    CountMarksAppend(a + b + c, d);
    CountMarksAppend(a + b, c);
    CountMarksAppend(a, b);
    CountMarksUnmarked(a);
    CountMarksUnmarked(c);
    CountMarksUnmarked(d);
  }

  /** The mark sits immediately after the first vowel of the nucleus, and
      everything before it is the initial and the final up to that vowel. */
  lemma {:induction false} MarkFollowsFirstVowel(initial: string, fin: string, tone: nat)
    requires FirstVowel(SplitNucleusCoda(fin).0).Some? && ToneMark(tone).Some?
    ensures var v := FirstVowel(SplitNucleusCoda(fin).0).value;
      var out := DiacriticForm(initial, fin, tone);
      && |initial| + v + 1 < |out|
      && out[..|initial| + v + 1] == initial + fin[..v + 1]
      && out[|initial| + v + 1] == ToneMark(tone).value
  {
    var split := SplitNucleusCoda(fin);
    MarkedLayout(initial, split.0, split.1, LowRegisterH(tone), ToneMark(tone).value);
  }

  /** The layout of a marked syllable built from its pieces. */
  lemma MarkedLayout(initial: string, nucleus: string, coda: string, h: string, mark: char)
    requires FirstVowel(nucleus).Some?
    ensures var v := FirstVowel(nucleus).value;
      var out := initial + MarkFirstVowel(nucleus, Some(mark)) + h + coda;
      && |initial| + v + 1 < |out|
      && out[..|initial| + v + 1] == initial + (nucleus + coda)[..v + 1]
      && out[|initial| + v + 1] == mark
  {
    var v := FirstVowel(nucleus).value;
    Regroup(initial, nucleus[..v + 1], mark, nucleus[v + 1..], h, coda);
    SpliceAt(initial + nucleus[..v + 1], mark, nucleus[v + 1..] + h + coda);
    PrefixOfConcat(nucleus, coda, v + 1);
  }

  /** Moving the brackets around a spliced character. */
  lemma Regroup(a: string, p: string, c: char, q: string, h: string, d: string)
    ensures a + (p + [c] + q) + h + d == (a + p) + [c] + (q + h + d)
  {
  }

  /** Where a character spliced between two strings sits. */
  lemma SpliceAt(front: string, c: char, back: string)
    ensures |front| < |front + [c] + back|
    ensures (front + [c] + back)[..|front|] == front && (front + [c] + back)[|front|] == c
  {
  }

  /** A prefix no longer than the first part comes from the first part. */
  lemma PrefixOfConcat(a: string, b: string, n: nat)
    requires n <= |a|
    ensures (a + b)[..n] == a[..n]
  {
  }

  // ---------------------------------------------------------------------
  // Syllables and phrases
  // ---------------------------------------------------------------------

  /** `convert_syllable`: `None` exactly when the syllable does not end in an
      ASCII digit; the numeric form ends in the same tone digit. */
  function ConvertSyllable(syllable: string, diacritics: bool): (r: Option<string>)
    ensures r.None? <==> syllable == [] || !IsAsciiDigit(syllable[|syllable| - 1])
    ensures r.Some? && !diacritics ==>
      r.value != [] && r.value[|r.value| - 1] == syllable[|syllable| - 1]
  {
    match SplitTone(syllable)
    case None => None
    case Some(bodyTone) =>
      var body, tone := bodyTone.0, bodyTone.1;
      var initial, rest := ConvertInitial(body).0, ConvertInitial(body).1;
      var fin := CollapseBareAa(ConvertFinal(rest));
      if diacritics then Some(DiacriticForm(initial, fin, tone))
      else Some(initial + fin + [DigitChar(tone)])
  }

  /** Every initial `convert_initial` produces is made of lower-case ASCII
      letters. */
  lemma {:induction false} InitialLetters(body: string)
    ensures var initial := ConvertInitial(body).0;
      forall i | 0 <= i < |initial| :: 'a' <= initial[i] <= 'z'
  {
  }

  /** The final rules only bring in the letters `e u i n g k`. */
  lemma {:induction false} ConvertFinalKeeps(fin: string, p: char -> bool)
    requires forall i | 0 <= i < |fin| :: p(fin[i])
    requires p('e') && p('u') && p('i') && p('n') && p('g') && p('k')
    ensures forall i | 0 <= i < |ConvertFinal(fin)| :: p(ConvertFinal(fin)[i])
  {
    var a := ReplaceAll(fin, "eoi", "eui");
    var b := ReplaceAll(a, "oeng", "eung");
    var c := ReplaceAll(b, "oek", "euk");
    var d := ReplaceAll(c, "oe", "eu");
    ReplaceAllKeeps(fin, "eoi", "eui", p);
    ReplaceAllKeeps(a, "oeng", "eung", p);
    ReplaceAllKeeps(b, "oek", "euk", p);
    ReplaceAllKeeps(c, "oe", "eu", p);
    ReplaceAllKeeps(d, "eo", "eu", p);
  }

  /** A whitespace-free syllable with a tone converts to a non-empty,
      whitespace-free numeric syllable. */
  lemma {:induction false} NumericClean(syllable: string)
    requires NoWhitespace(syllable)
    ensures ConvertSyllable(syllable, false).Some? ==>
      var out := ConvertSyllable(syllable, false).value;
      out != [] && NoWhitespace(out)
  {
    if SplitTone(syllable).Some? {
      var body, tone := SplitTone(syllable).value.0, SplitTone(syllable).value.1;
      var initial, rest := ConvertInitial(body).0, ConvertInitial(body).1;
      var n := |JyutpingInitial(initial)|;
      assert forall i | 0 <= i < |rest| :: rest[i] == syllable[n + i];
      ConvertFinalKeeps(rest, c => !IsWhitespace(c));
      var fin := CollapseBareAa(ConvertFinal(rest));
      assert NoWhitespace(fin);
      InitialLetters(body);
      var out := initial + fin + [DigitChar(tone)];
      assert ConvertSyllable(syllable, false) == Some(out);
    }
  }

  /** `filter_map`: the values `f` yields over `xs`, in order, with the
      `None`s dropped. */
  function FilterMap(xs: seq<string>, f: string -> Option<string>): (r: seq<string>)
    ensures |r| <= |xs|
    ensures r == [] <==> forall i | 0 <= i < |xs| :: f(xs[i]).None?
    ensures (forall i | 0 <= i < |xs| :: f(xs[i]).Some?) ==>
      |r| == |xs| && forall i | 0 <= i < |xs| :: f(xs[i]) == Some(r[i])
  {
    if xs == [] then []
    else
      var rest := FilterMap(xs[1..], f);
      assert forall i | 1 <= i < |xs| :: xs[i] == xs[1..][i - 1];
      match f(xs[0])
      case Some(y) => [y] + rest
      case None => rest
  }

  /** Dropping is per element: filtering a concatenation concatenates the
      results. */
  lemma {:induction false} FilterMapAppend(a: seq<string>, b: seq<string>, f: string -> Option<string>)
    ensures FilterMap(a + b, f) == FilterMap(a, f) + FilterMap(b, f)
    decreases |a|
  {
    if a == [] {
      assert a + b == b;
    } else {
      var x, rest := a[0], a[1..];
      var head := if f(x).Some? then [f(x).value] else [];
      assert a + b == [x] + (rest + b);
      assert a == [x] + rest;
      calc {
        FilterMap(a + b, f);
      == { FilterMapCons(x, rest + b, f); }
        head + FilterMap(rest + b, f);
      == { FilterMapAppend(rest, b, f); }
        head + (FilterMap(rest, f) + FilterMap(b, f));
      ==
        (head + FilterMap(rest, f)) + FilterMap(b, f);
      == { FilterMapCons(x, rest, f); }
        FilterMap(a, f) + FilterMap(b, f);
      }
    }
  }

  /** One element in front: its value, if any, comes first. */
  lemma FilterMapCons(x: string, xs: seq<string>, f: string -> Option<string>)
    ensures FilterMap([x] + xs, f) == (if f(x).Some? then [f(x).value] else []) + FilterMap(xs, f)
  {
    assert ([x] + xs)[1..] == xs;
  }

  /** Whatever holds of every value `f` yields holds of every kept element. */
  lemma {:induction false} FilterMapKeeps(xs: seq<string>, f: string -> Option<string>, p: string -> bool)
    requires forall i | 0 <= i < |xs| :: f(xs[i]).Some? ==> p(f(xs[i]).value)
    ensures forall i | 0 <= i < |FilterMap(xs, f)| :: p(FilterMap(xs, f)[i])
    decreases |xs|
  {
    if xs != [] {
      assert forall i | 1 <= i < |xs| :: xs[i] == xs[1..][i - 1];
      FilterMapKeeps(xs[1..], f, p);
    }
  }

  /** The per-syllable conversion `filter_map` applies. */
  function Converter(diacritics: bool): string -> Option<string> {
    s => ConvertSyllable(s, diacritics)
  }

  /** `jyutping_to_yale` (before canonical composition): `None` exactly when
      no syllable converts (in particular for empty or whitespace-only
      input), otherwise the converted syllables joined by single spaces. */
  function JyutpingToYale(jyutping: string, diacritics: bool): (r: Option<string>)
    ensures var syllables := SplitWhitespace(jyutping);
      r.None? <==> forall i | 0 <= i < |syllables| :: ConvertSyllable(syllables[i], diacritics).None?
    ensures (forall i | 0 <= i < |jyutping| :: IsWhitespace(jyutping[i])) ==> r.None?
  {
    var syllables := SplitWhitespace(jyutping);
    if syllables == [] then None
    else
      var converted := FilterMap(syllables, Converter(diacritics));
      if converted == [] then None else Some(Join(converted))
  }

  /** The numeric output splits back into exactly the converted syllables:
      it is the valid syllables' conversions separated by single spaces. */
  lemma {:induction false} NumericOutputResplits(jyutping: string)
    requires JyutpingToYale(jyutping, false).Some?
    ensures SplitWhitespace(JyutpingToYale(jyutping, false).value)
         == FilterMap(SplitWhitespace(jyutping), Converter(false))
  {
    var syllables := SplitWhitespace(jyutping);
    forall i | 0 <= i < |syllables|
      ensures var c := Converter(false)(syllables[i]);
        c.Some? ==> c.value != [] && NoWhitespace(c.value)
    {
      NumericClean(syllables[i]);
    }
    FilterMapKeeps(syllables, Converter(false), s => s != [] && NoWhitespace(s));
    SplitJoinRoundTrip(FilterMap(syllables, Converter(false)));
  }

  /** `jyutping_to_yale_vec` (before canonical composition): one diacritic
      string per valid syllable, in input order, never more than there are
      syllables; `None` exactly when no syllable converts. */
  function JyutpingToYaleVec(jyutping: string): (r: Option<seq<string>>)
    ensures var syllables := SplitWhitespace(jyutping);
      && (r.None? <==> forall i | 0 <= i < |syllables| :: ConvertSyllable(syllables[i], true).None?)
      && (r.Some? ==> 0 < |r.value| <= |syllables|)
  {
    var syllables := SplitWhitespace(jyutping);
    if syllables == [] then None
    else
      var converted := FilterMap(syllables, Converter(true));
      if converted == [] then None else Some(converted)
  }

  /** The per-syllable list and the whole-phrase diacritic conversion agree:
      joining the list gives the phrase. */
  lemma {:induction false} VecAgreesWithPhrase(jyutping: string)
    ensures JyutpingToYaleVec(jyutping).None? <==> JyutpingToYale(jyutping, true).None?
    ensures JyutpingToYaleVec(jyutping).Some? ==>
      JyutpingToYale(jyutping, true) == Some(Join(JyutpingToYaleVec(jyutping).value))
  {
    var syllables := SplitWhitespace(jyutping);
    if syllables != [] {
      var converted := FilterMap(syllables, Converter(true));
      assert JyutpingToYaleVec(jyutping) == if converted == [] then None else Some(converted);
      assert JyutpingToYale(jyutping, true) == if converted == [] then None else Some(Join(converted));
    }
  }

  /** The initial cases of the repository's numeric unit tests: `z`, `c`
      and `j` are respelled `j`, `ch` and `y`. */
  lemma {:induction false} InitialExamples()
    ensures ConvertSyllable("zi1", false) == Some("ji1")
    ensures ConvertSyllable("ci1", false) == Some("chi1")
    ensures ConvertSyllable("ji1", false) == Some("yi1")
  {
    Zi1Parts();
    SyllableParts("zi1", "zi", 1, "j", "i", "i");
    Ci1Parts();
    SyllableParts("ci1", "ci", 1, "ch", "i", "i");
    Ji1Parts();
    SyllableParts("ji1", "ji", 1, "y", "i", "i");
  }

  /** Low-register diacritic cases of the repository's unit tests: a grave
      accent or an acute, or no mark for tone 6, and the `h` after the
      nucleus, before the coda. */
  lemma {:induction false} LowRegisterExamples()
    ensures ConvertSyllable("haam4", true) == Some("ha\U{0300}ahm")
    ensures ConvertSyllable("hok6", true) == Some("hohk")
    ensures ConvertSyllable("ngo5", true) == Some("ngo\U{0301}h")
  {
    Haam4Parts();
    SyllableParts("haam4", "haam", 4, "h", "aam", "aam");
    Haam4Marked();
    Hok6Parts();
    SyllableParts("hok6", "hok", 6, "h", "ok", "ok");
    Hok6Marked();
    Ngo5Parts();
    SyllableParts("ngo5", "ngo", 5, "ng", "o", "o");
    Ngo5Marked();
  }

  /** High-register diacritic cases of the repository's unit tests: a macron
      for tone 1 and an acute for tone 2 after the first vowel, no `h`. */
  lemma {:induction false} HighRegisterExamples()
    ensures ConvertSyllable("hou2", true) == Some("ho\U{0301}u")
    ensures ConvertSyllable("si1", true) == Some("si\U{0304}")
    ensures ConvertSyllable("jat1", true) == Some("ya\U{0304}t")
  {
    Hou2Parts();
    SyllableParts("hou2", "hou", 2, "h", "ou", "ou");
    Hou2Marked();
    Si1Parts();
    SyllableParts("si1", "si", 1, "s", "i", "i");
    Si1Marked();
    Jat1Parts();
    SyllableParts("jat1", "jat", 1, "y", "at", "at");
    Jat1Marked();
  }

  /** The multi-syllable case of the repository's numeric unit tests: each
      syllable is converted, a bare `aa` collapses, and the results are
      joined by single spaces. */
  lemma {:induction false} MultiSyllableExample()
    ensures JyutpingToYale("gwong2 dung1 waa2", false) == Some("gwong2 dung1 wa2")
  {
    SplitGwongDungWaa();
    GwongDungWaaConverted();
    GwongDungWaJoined();
    PhraseConverts("gwong2 dung1 waa2", false, ["gwong2", "dung1", "waa2"], ["gwong2", "dung1", "wa2"]);
  }

  /** A syllable without a tone digit is dropped from a phrase. */
  lemma {:induction false} DroppedSyllableExample()
    ensures JyutpingToYale("zi1 x", false) == Some("ji1")
  {
    Zi1Parts();
    SyllableParts("zi1", "zi", 1, "j", "i", "i");
    SplitZiX();
    assert ConvertSyllable("x", false) == None;
    FilterMapCons("x", [], Converter(false));
    FilterMapCons("zi1", ["x"], Converter(false));
    assert ["zi1", "x"] == ["zi1"] + ["x"] && ["x"] == ["x"] + [];
    assert FilterMap(["zi1", "x"], Converter(false)) == ["ji1"];
  }

  // The steps of the examples above.

  lemma GwongDungWaaConverted()
    ensures FilterMap(["gwong2", "dung1", "waa2"], Converter(false)) == ["gwong2", "dung1", "wa2"]
  {
    assert ConvertSyllable("gwong2", false) == Some("gwong2") by {
      Gwong2Parts();
      SyllableParts("gwong2", "gwong", 2, "gw", "ong", "ong");
    }
    assert ConvertSyllable("dung1", false) == Some("dung1") by {
      Dung1Parts();
      SyllableParts("dung1", "dung", 1, "d", "ung", "ung");
    }
    assert ConvertSyllable("waa2", false) == Some("wa2") by {
      Waa2Parts();
      SyllableParts("waa2", "waa", 2, "w", "aa", "a");
    }
    FilterMapThree("gwong2", "dung1", "waa2", Converter(false));
  }

  lemma GwongDungWaJoined()
    ensures Join(["gwong2", "dung1", "wa2"]) == "gwong2 dung1 wa2"
  {
    assert "gwong2" + " " + "dung1" + " " + "wa2" == "gwong2 dung1 wa2";
    JoinThree("gwong2", "dung1", "wa2");
  }

  /** Three elements that all yield a value keep those values in order. */
  lemma FilterMapThree(a: string, b: string, c: string, f: string -> Option<string>)
    requires f(a).Some? && f(b).Some? && f(c).Some?
    ensures FilterMap([a, b, c], f) == [f(a).value, f(b).value, f(c).value]
  {
    var xs := [a, b, c];
    assert forall i | 0 <= i < |xs| :: f(xs[i]).Some?;
  }

  /** Three parts joined by single spaces. */
  lemma JoinThree(a: string, b: string, c: string)
    ensures Join([a, b, c]) == a + " " + b + " " + c
  {
    assert [a, b, c][1..] == [b, c] && [b, c][1..] == [c];
    assert Join([c]) == c;
    assert Join([b, c]) == b + " " + c;
    assert Join([a, b, c]) == a + " " + (b + " " + c);
  }

  /** A phrase whose syllables and conversions are known converts to their
      space-joined form. */
  lemma PhraseConverts(jyutping: string, diacritics: bool, syllables: seq<string>, converted: seq<string>)
    requires SplitWhitespace(jyutping) == syllables && syllables != []
    requires FilterMap(syllables, Converter(diacritics)) == converted && converted != []
    ensures JyutpingToYale(jyutping, diacritics) == Some(Join(converted))
  {
  }

  /** A syllable whose body, initial and final are known converts to the
      Yale form of that initial and final with the tone. */
  lemma SyllableParts(syllable: string, body: string, tone: nat, initial: string, rest: string, fin: string)
    requires tone <= 9 && syllable == body + [DigitChar(tone)]
    requires ConvertInitial(body) == (initial, rest) && CollapseBareAa(ConvertFinal(rest)) == fin
    ensures ConvertSyllable(syllable, true) == Some(DiacriticForm(initial, fin, tone))
    ensures ConvertSyllable(syllable, false) == Some(initial + fin + [DigitChar(tone)])
  {
    assert syllable[..|syllable| - 1] == body;
    assert syllable[|syllable| - 1] as int - '0' as int == tone;
  }

  /** The finals of the examples that contain `o` have neither `oe` nor
      `eo`, so `convert_final` keeps them. */
  lemma NoOeEo(fin: string)
    requires fin in ["o", "ok", "ou", "ong"]
    ensures ConvertFinal(fin) == fin
  {
    forall i: nat ensures !MatchAt(fin, i, "oe") && !MatchAt(fin, i, "eo") {
      if i + 2 <= |fin| {
        assert fin[i..i + 2][0] == fin[i] && fin[i..i + 2][1] == fin[i + 1];
      }
    }
    FinalWithoutOeUnchanged(fin);
  }

  lemma Zi1Parts()
    ensures "zi1" == "zi" + [DigitChar(1)]
    ensures ConvertInitial("zi") == ("j", "i") && CollapseBareAa(ConvertFinal("i")) == "i"
    ensures "j" + "i" + [DigitChar(1)] == "ji1"
  {
    assert DigitChar(1) == '1';
    assert "zi"[1..] == "i";
    FinalWithoutO("i");
  }

  lemma Ci1Parts()
    ensures "ci1" == "ci" + [DigitChar(1)]
    ensures ConvertInitial("ci") == ("ch", "i") && CollapseBareAa(ConvertFinal("i")) == "i"
    ensures "ch" + "i" + [DigitChar(1)] == "chi1"
  {
    assert DigitChar(1) == '1';
    assert "ci"[1..] == "i";
    FinalWithoutO("i");
  }

  lemma Ji1Parts()
    ensures "ji1" == "ji" + [DigitChar(1)]
    ensures ConvertInitial("ji") == ("y", "i") && CollapseBareAa(ConvertFinal("i")) == "i"
    ensures "y" + "i" + [DigitChar(1)] == "yi1"
  {
    assert DigitChar(1) == '1';
    assert "ji"[1..] == "i";
    FinalWithoutO("i");
  }

  lemma Haam4Parts()
    ensures "haam4" == "haam" + [DigitChar(4)]
    ensures ConvertInitial("haam") == ("h", "aam") && CollapseBareAa(ConvertFinal("aam")) == "aam"
  {
    assert DigitChar(4) == '4';
    assert "haam"[1..] == "aam";
    FinalWithoutO("aam");
  }

  lemma Hok6Parts()
    ensures "hok6" == "hok" + [DigitChar(6)]
    ensures ConvertInitial("hok") == ("h", "ok") && CollapseBareAa(ConvertFinal("ok")) == "ok"
  {
    assert DigitChar(6) == '6';
    assert "hok"[1..] == "ok";
    NoOeEo("ok");
  }

  lemma Ngo5Parts()
    ensures "ngo5" == "ngo" + [DigitChar(5)]
    ensures ConvertInitial("ngo") == ("ng", "o") && CollapseBareAa(ConvertFinal("o")) == "o"
  {
    assert DigitChar(5) == '5';
    assert "ng" <= "ngo" && "ngo"[2..] == "o";
    ClustersBeforeSingleLetters("ngo");
    NoOeEo("o");
  }

  lemma Hou2Parts()
    ensures "hou2" == "hou" + [DigitChar(2)]
    ensures ConvertInitial("hou") == ("h", "ou") && CollapseBareAa(ConvertFinal("ou")) == "ou"
  {
    assert DigitChar(2) == '2';
    assert "hou"[1..] == "ou";
    NoOeEo("ou");
  }

  lemma Si1Parts()
    ensures "si1" == "si" + [DigitChar(1)]
    ensures ConvertInitial("si") == ("s", "i") && CollapseBareAa(ConvertFinal("i")) == "i"
  {
    assert DigitChar(1) == '1';
    assert "si"[1..] == "i";
    FinalWithoutO("i");
  }

  lemma Jat1Parts()
    ensures "jat1" == "jat" + [DigitChar(1)]
    ensures ConvertInitial("jat") == ("y", "at") && CollapseBareAa(ConvertFinal("at")) == "at"
  {
    assert DigitChar(1) == '1';
    assert "jat"[1..] == "at";
    FinalWithoutO("at");
  }

  lemma Gwong2Parts()
    ensures "gwong2" == "gwong" + [DigitChar(2)]
    ensures ConvertInitial("gwong") == ("gw", "ong") && CollapseBareAa(ConvertFinal("ong")) == "ong"
    ensures "gw" + "ong" + [DigitChar(2)] == "gwong2"
  {
    assert DigitChar(2) == '2';
    assert "gw" <= "gwong" && "gwong"[2..] == "ong";
    ClustersBeforeSingleLetters("gwong");
    NoOeEo("ong");
  }

  lemma Dung1Parts()
    ensures "dung1" == "dung" + [DigitChar(1)]
    ensures ConvertInitial("dung") == ("d", "ung") && CollapseBareAa(ConvertFinal("ung")) == "ung"
    ensures "d" + "ung" + [DigitChar(1)] == "dung1"
  {
    assert DigitChar(1) == '1';
    assert "dung"[1..] == "ung";
    FinalWithoutO("ung");
  }

  lemma Waa2Parts()
    ensures "waa2" == "waa" + [DigitChar(2)]
    ensures ConvertInitial("waa") == ("w", "aa") && CollapseBareAa(ConvertFinal("aa")) == "a"
    ensures "w" + "a" + [DigitChar(2)] == "wa2"
  {
    assert DigitChar(2) == '2';
    assert "waa"[1..] == "aa";
    FinalWithoutO("aa");
  }

  lemma Haam4Marked()
    ensures DiacriticForm("h", "aam", 4) == "ha\U{0300}ahm"
  {
    assert "aam"[..2] == "aa" && ["m"[0]] == "m";
    assert SplitNucleusCoda("aam") == ("aa", "m");
    assert FirstVowel("aa") == Some(0);
  }

  lemma Hok6Marked()
    ensures DiacriticForm("h", "ok", 6) == "hohk"
  {
    assert "ok"[..1] == "o" && ["k"[0]] == "k";
    assert SplitNucleusCoda("ok") == ("o", "k");
    assert FirstVowel("o") == Some(0);
  }

  lemma Ngo5Marked()
    ensures DiacriticForm("ng", "o", 5) == "ngo\U{0301}h"
  {
    assert SplitNucleusCoda("o") == ("o", []);
    assert FirstVowel("o") == Some(0);
  }

  lemma Hou2Marked()
    ensures DiacriticForm("h", "ou", 2) == "ho\U{0301}u"
  {
    assert SplitNucleusCoda("ou") == ("ou", []);
    assert FirstVowel("ou") == Some(0);
  }

  lemma Si1Marked()
    ensures DiacriticForm("s", "i", 1) == "si\U{0304}"
  {
    assert SplitNucleusCoda("i") == ("i", []);
    assert FirstVowel("i") == Some(0);
  }

  lemma Jat1Marked()
    ensures DiacriticForm("y", "at", 1) == "ya\U{0304}t"
  {
    assert "at"[..1] == "a" && ["t"[0]] == "t";
    assert SplitNucleusCoda("at") == ("a", "t");
    assert FirstVowel("a") == Some(0);
  }

  /** `zi1 x` splits into its two words. */
  lemma SplitZiX()
    ensures SplitWhitespace("zi1 x") == ["zi1", "x"]
  {
    assert "zi1 x" == "zi1" + [' '] + "x";
    SplitWord("zi1", "x");
    SplitLastWord("x");
  }

  /** `gwong2 dung1 waa2` splits into its three syllables. */
  lemma SplitGwongDungWaa()
    ensures SplitWhitespace("gwong2 dung1 waa2") == ["gwong2", "dung1", "waa2"]
  {
    assert "gwong2 dung1 waa2" == "gwong2" + [' '] + "dung1 waa2";
    SplitWord("gwong2", "dung1 waa2");
    SplitDungWaa();
  }

  lemma SplitDungWaa()
    ensures SplitWhitespace("dung1 waa2") == ["dung1", "waa2"]
  {
    SplitTwoWords("dung1", "waa2");
    assert "dung1 waa2" == "dung1" + [' '] + "waa2";
  }

  /** Two words of characters between `0` and `z` joined by a space split
      back into those two words. */
  lemma SplitTwoWords(a: string, b: string)
    requires a != [] && forall i | 0 <= i < |a| :: '0' <= a[i] <= 'z'
    requires b != [] && forall i | 0 <= i < |b| :: '0' <= b[i] <= 'z'
    ensures SplitWhitespace(a + [' '] + b) == [a, b]
  {
    SplitWord(a, b);
    SplitLastWord(b);
  }

  /** A word of characters between `0` and `z` followed by a space splits
      off first. */
  lemma SplitWord(w: string, rest: string)
    requires w != [] && forall i | 0 <= i < |w| :: '0' <= w[i] <= 'z'
    ensures SplitWhitespace(w + [' '] + rest) == [w] + SplitWhitespace(rest)
  {
    var s := w + [' '] + rest;
    assert s[..|w|] == w && s[|w|] == ' ' && s[|w| + 1..] == rest;
    RunLengthAt(s, |w|);
    assert s[|w|..][1..] == rest;
  }

  /** A single word of characters between `0` and `z` splits into itself. */
  lemma SplitLastWord(w: string)
    requires w != [] && forall i | 0 <= i < |w| :: '0' <= w[i] <= 'z'
    ensures SplitWhitespace(w) == [w]
  {
    assert w[..|w|] == w && w[|w|..] == [];
    RunLengthAt(w, |w|);
  }

  /** The leading run ends at the first whitespace character. */
  lemma {:induction false} RunLengthAt(s: string, k: nat)
    requires k <= |s| && NoWhitespace(s[..k]) && (k < |s| ==> IsWhitespace(s[k]))
    ensures RunLength(s) == k
    decreases k
  {
    if k > 0 {
      assert s[..k][0] == s[0];
      assert s[1..][..k - 1] == s[..k][1..];
      RunLengthAt(s[1..], k - 1);
    }
  }
}
