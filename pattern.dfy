/**
 The version pattern `<a href="[^"]+">([0-9]+\.[0-9]+\.[0-9]+-gke\.[0-9]+)</a>`
 and Go's `FindAllStringSubmatch(s, -1)` applied to it.

 The pattern is written as an explicit grammar: three lists of tokens (fixed
 texts, runs of digits, runs of non-quote characters) for the link head, the
 capture group and the closing tag. It is given a declarative meaning
 (`InLang`: the text splits into pieces, one per token) and a scanner
 (`Scan`: each run is taken as long as possible), and the two are proved to
 agree. Every run in the pattern is followed by a character it cannot
 contain (`[^"]+` by `"`, each `[0-9]+` by `.`, `-` or `<`), which is why the
 longest run is the only one that can lead to a match, and why at most one
 match starts at any position.
 */
module VersionPattern {

  import opened Wrappers
  import opened Strings

  /** One element of the pattern: a fixed text, `[0-9]+`, or `[^"]+`. */
  datatype Token = Lit(text: string) | DigitRun | HrefRun

  const OPEN_TAG: string := "<a href=\""
  const HREF_END: string := "\">"
  const CLOSE_TAG: string := "</a>"

  /** `<a href="[^"]+">` */
  const LINK_HEAD: seq<Token> := [Lit(OPEN_TAG), HrefRun, Lit(HREF_END)]

  /** `[0-9]+\.[0-9]+\.[0-9]+-gke\.[0-9]+`, capture group 1 */
  const VERSION: seq<Token> := [DigitRun, Lit("."), DigitRun, Lit("."), DigitRun, Lit("-gke."), DigitRun]

  /** `</a>` */
  const LINK_TAIL: seq<Token> := [Lit(CLOSE_TAG)]

  predicate IsDigit(c: char)
  {
    '0' <= c <= '9'
  }

  /** The characters a run token is made of; a fixed text is not a run. */
  predicate Admits(tok: Token, c: char)
  {
    match tok
    case Lit(_) => false
    case DigitRun => IsDigit(c)
    case HrefRun => c != '"'
  }

  /** The fewest characters a token can match. */
  function Width(tok: Token): nat
  {
    if tok.Lit? then |tok.text| else 1
  }

  function MinWidth(toks: seq<Token>): nat
  {
    if toks == [] then 0 else Width(toks[0]) + MinWidth(toks[1..])
  }

  /** `t` is a text that the token `tok` matches on its own. */
  ghost predicate TokenText(tok: Token, t: string)
  {
    match tok
    case Lit(x) => t == x
    case _ => |t| > 0 && forall k :: 0 <= k < |t| ==> Admits(tok, t[k])
  }

  /** `t` is made of texts matched by the tokens of `toks`, one after the other. */
  ghost predicate InLang(t: string, toks: seq<Token>)
    decreases |toks|
  {
    if toks == [] then t == []
    else exists n :: 0 <= n <= |t| && TokenText(toks[0], t[..n]) && InLang(t[n..], toks[1..])
  }

  /** Every run is followed by a fixed text whose first character the run cannot contain. */
  predicate Unambiguous(toks: seq<Token>)
  {
    forall k :: 0 <= k < |toks| - 1 ==>
      toks[k].Lit? || (toks[k + 1].Lit? && |toks[k + 1].text| > 0 && !Admits(toks[k], toks[k + 1].text[0]))
  }

  /** A final run of `toks` cannot continue past position `e` of `s`. */
  predicate StopsAt(s: string, e: nat, toks: seq<Token>)
  {
    toks == [] || toks[|toks| - 1].Lit? || e == |s| || (e < |s| && !Admits(toks[|toks| - 1], s[e]))
  }

  /** A pattern `head(group)tail` with one capture group. */
  datatype Pattern = Pattern(head: seq<Token>, group: seq<Token>, tail: seq<Token>)

  /** The version pattern, `versionRegex`. */
  const GKE_LINK: Pattern := Pattern(LINK_HEAD, VERSION, LINK_TAIL)

  /**
   Every run of the pattern is followed by a character it cannot contain, so
   that taking each run as long as possible finds every match; the head and
   the tail end in fixed texts and the tail starts with one.
   */
  predicate WellFormed(pat: Pattern)
  {
    Unambiguous(pat.head) && Unambiguous(pat.group) && Unambiguous(pat.tail) &&
    |pat.head| > 0 && pat.head[|pat.head| - 1].Lit? &&
    |pat.tail| > 0 && pat.tail[0].Lit? && |pat.tail[0].text| > 0 && pat.tail[|pat.tail| - 1].Lit? &&
    (|pat.group| > 0 ==>
      pat.group[|pat.group| - 1].Lit? || !Admits(pat.group[|pat.group| - 1], pat.tail[0].text[0]))
  }

  /** `s[i..e]` matches the pattern and `v` is its capture group. */
  ghost predicate IsMatch(s: string, pat: Pattern, i: int, e: int, v: string)
  {
    exists a, b ::
      0 <= i <= a <= b <= e <= |s| &&
      InLang(s[i..a], pat.head) && InLang(s[a..b], pat.group) && InLang(s[b..e], pat.tail) &&
      v == s[a..b]
  }

  /** One match: where it starts and ends in the scanned text, and its capture group. */
  datatype Match = Match(start: nat, end: nat, version: string)

  /** The end of the longest run of `tok` characters that starts at `p`. */
  function RunEnd(s: string, p: nat, tok: Token): (q: nat)
    requires p <= |s|
    ensures p <= q <= |s|
    ensures q == |s| || !Admits(tok, s[q])
    decreases |s| - p
  {
    if p < |s| && Admits(tok, s[p]) then RunEnd(s, p + 1, tok) else p
  }

  /** The token `tok` read at `p`: the position after it. */
  function Step(s: string, p: nat, tok: Token): (r: Option<nat>)
    requires p <= |s|
    ensures r.Some? ==> p + Width(tok) <= r.value <= |s|
  {
    match tok
    case Lit(x) => if OccursAt(s, x, p) then Some(p + |x|) else None
    case _ =>
      var q := RunEnd(s, p, tok);
      if q > p then Some(q) else None
  }

  /** The tokens `toks` read one after the other from `p`: the position after the last. */
  function Scan(s: string, p: nat, toks: seq<Token>): (r: Option<nat>)
    requires p <= |s|
    ensures r.Some? ==> p + MinWidth(toks) <= r.value <= |s|
    decreases |toks|
  {
    if toks == [] then Some(p)
    else
      match Step(s, p, toks[0])
      case None => None
      case Some(q) => Scan(s, q, toks[1..])
  }

  /** The match of `pat` that starts at position `i`, if there is one. */
  function MatchAt(s: string, pat: Pattern, i: nat): (r: Option<Match>)
    requires i <= |s| && WellFormed(pat)
    ensures r.Some? ==> r.value.start == i < r.value.end <= |s|
  {
    match Scan(s, i, pat.head)
    case None => None
    case Some(a) =>
      match Scan(s, a, pat.group)
      case None => None
      case Some(b) =>
        match Scan(s, b, pat.tail)
        case None => None
        case Some(e) => Some(Match(i, e, s[a..b]))
  }

  /**
   The matches of `pat` found scanning from `p`: leftmost first; after a match
   the scan resumes at its end, otherwise one position further on.
   */
  function MatchesFrom(s: string, pat: Pattern, p: nat): (ms: seq<Match>)
    requires p <= |s| && WellFormed(pat)
    ensures forall k :: 0 <= k < |ms| ==> p <= ms[k].start < ms[k].end <= |s|
    ensures forall k :: 0 < k < |ms| ==> ms[k - 1].end <= ms[k].start
    decreases |s| - p
  {
    if p == |s| then []
    else
      match MatchAt(s, pat, p)
      case Some(m) => [m] + MatchesFrom(s, pat, m.end)
      case None => MatchesFrom(s, pat, p + 1)
  }

  /** All matches of the version pattern in `s`. */
  function Matches(s: string): seq<Match>
  {
    PatternWellFormed();
    MatchesFrom(s, GKE_LINK, 0)
  }

  /**
   `versionRegex.FindAllStringSubmatch(s, -1)`: for each match, the whole
   matched text followed by the text of capture group 1.
   */
  function FindAllStringSubmatch(s: string): seq<seq<string>>
  {
    var ms := Matches(s);
    seq(|ms|, k requires 0 <= k < |ms| => [s[ms[k].start..ms[k].end], ms[k].version])
  }

  /** The capture groups of all matches, in scan order, repeats included. */
  function Captures(s: string): seq<string>
  {
    var ms := Matches(s);
    seq(|ms|, k requires 0 <= k < |ms| => ms[k].version)
  }

  /** Every character of a run that `RunEnd` skips belongs to the run. */
  lemma {:induction false} RunEndAdmits(s: string, p: nat, tok: Token)
    requires p <= |s|
    ensures forall k :: p <= k < RunEnd(s, p, tok) ==> Admits(tok, s[k])
    decreases |s| - p
  {
    if p < |s| && Admits(tok, s[p]) {
      RunEndAdmits(s, p + 1, tok);
    }
  }

  /** What `Step` reads is a text of the token. */
  lemma StepSound(s: string, p: nat, tok: Token)
    requires p <= |s| && Step(s, p, tok).Some?
    ensures TokenText(tok, s[p..Step(s, p, tok).value])
  {
    if !tok.Lit? {
      RunEndAdmits(s, p, tok);
    }
  }

  /** A text of the token at `p`, after which a run cannot continue, is what `Step` reads. */
  lemma StepFinds(s: string, p: nat, q: nat, tok: Token)
    requires p <= q <= |s| && TokenText(tok, s[p..q])
    requires tok.Lit? || q == |s| || !Admits(tok, s[q])
    ensures Step(s, p, tok) == Some(q)
  {
    if !tok.Lit? {
      var r := RunEnd(s, p, tok);
      RunEndAdmits(s, p, tok);
      forall k | p <= k < q ensures Admits(tok, s[k]) {
        assert s[k] == s[p..q][k - p];
      }
    }
  }

  /** What `Scan` reads is in the language of the tokens. */
  lemma {:induction false} ScanSound(s: string, p: nat, toks: seq<Token>)
    requires p <= |s| && Scan(s, p, toks).Some?
    ensures InLang(s[p..Scan(s, p, toks).value], toks)
    decreases |toks|
  {
    var e := Scan(s, p, toks).value;
    if toks != [] {
      var q := Step(s, p, toks[0]).value;
      StepSound(s, p, toks[0]);
      ScanSound(s, q, toks[1..]);
      var t := s[p..e];
      assert t[..q - p] == s[p..q];
      assert t[q - p..] == s[q..e];
    }
  }

  /** A text in the language of `toks`, whose first token is a fixed text, begins with that text's first character. */
  lemma LitFirst(t: string, toks: seq<Token>)
    requires toks != [] && toks[0].Lit? && |toks[0].text| > 0 && InLang(t, toks)
    ensures |t| > 0 && t[0] == toks[0].text[0]
  {
    var n :| 0 <= n <= |t| && TokenText(toks[0], t[..n]) && InLang(t[n..], toks[1..]);
    assert t[..n][0] == t[0];
  }

  /** The tail of an unambiguous token list is unambiguous. */
  lemma UnambiguousTail(toks: seq<Token>)
    requires toks != [] && Unambiguous(toks)
    ensures Unambiguous(toks[1..])
  {
    forall k | 0 <= k < |toks[1..]| - 1
      ensures toks[1..][k].Lit? ||
        (toks[1..][k + 1].Lit? && |toks[1..][k + 1].text| > 0 && !Admits(toks[1..][k], toks[1..][k + 1].text[0]))
    {
      assert toks[1..][k] == toks[k + 1] && toks[1..][k + 1] == toks[k + 2];
    }
  }

  /**
   In an unambiguous token list, the first token of a text of the language
   is read by `Step`, and the rest of the text is in the language of the
   remaining tokens.
   */
  lemma FirstStep(s: string, p: nat, e: nat, toks: seq<Token>) returns (q: nat)
    requires p <= e <= |s| && toks != [] && InLang(s[p..e], toks) && Unambiguous(toks) && StopsAt(s, e, toks)
    ensures p <= q <= e && Step(s, p, toks[0]) == Some(q) && InLang(s[q..e], toks[1..])
  {
    var t := s[p..e];
    var n :| 0 <= n <= |t| && TokenText(toks[0], t[..n]) && InLang(t[n..], toks[1..]);
    q := p + n;
    assert t[..n] == s[p..q];
    assert t[n..] == s[q..e];
    if !toks[0].Lit? {
      RunStops(s, q, e, toks);
    }
    StepFinds(s, p, q, toks[0]);
  }

  /** A run that the rest of an unambiguous text follows cannot continue into it. */
  lemma RunStops(s: string, q: nat, e: nat, toks: seq<Token>)
    requires q <= e <= |s| && toks != [] && !toks[0].Lit? && InLang(s[q..e], toks[1..])
    requires Unambiguous(toks) && StopsAt(s, e, toks)
    ensures q == |s| || !Admits(toks[0], s[q])
  {
    if |toks| == 1 {
      assert |s[q..e]| == 0;
    } else {
      assert toks[1..][0] == toks[1];
      LitFirst(s[q..e], toks[1..]);
      assert s[q] == s[q..e][0];
    }
  }

  /**
   For an unambiguous token list, every text of its language that no final
   run could extend is exactly what `Scan` reads.
   */
  lemma {:induction false} ScanComplete(s: string, p: nat, e: nat, toks: seq<Token>)
    requires p <= e <= |s| && InLang(s[p..e], toks) && Unambiguous(toks) && StopsAt(s, e, toks)
    ensures Scan(s, p, toks) == Some(e)
    decreases |toks|
  {
    if toks == [] {
      assert |s[p..e]| == 0;
    } else {
      var q := FirstStep(s, p, e, toks);
      UnambiguousTail(toks);
      assert StopsAt(s, e, toks[1..]);
      ScanComplete(s, q, e, toks[1..]);
    }
  }

  /** The version pattern is well formed. */
  lemma PatternWellFormed()
    ensures WellFormed(GKE_LINK)
  {
    assert OPEN_TAG[0] == '<' && HREF_END[0] == '"' && CLOSE_TAG[0] == '<';
    assert "-gke."[0] == '-';
  }

  /** Whatever the scanner reports at `i` is a match of the pattern. */
  lemma MatchAtSound(s: string, pat: Pattern, i: nat)
    requires i <= |s| && WellFormed(pat) && MatchAt(s, pat, i).Some?
    ensures IsMatch(s, pat, i, MatchAt(s, pat, i).value.end, MatchAt(s, pat, i).value.version)
  {
    var a := Scan(s, i, pat.head).value;
    var b := Scan(s, a, pat.group).value;
    var e := Scan(s, b, pat.tail).value;
    ScanSound(s, i, pat.head);
    ScanSound(s, a, pat.group);
    ScanSound(s, b, pat.tail);
    assert MatchAt(s, pat, i).value == Match(i, e, s[a..b]);
  }

  /** Every match of the pattern at `i` is the one the scanner reports there. */
  lemma MatchAtComplete(s: string, pat: Pattern, i: nat, e: nat, v: string)
    requires WellFormed(pat) && IsMatch(s, pat, i, e, v)
    ensures MatchAt(s, pat, i) == Some(Match(i, e, v))
  {
    var a, b :|
      0 <= i <= a <= b <= e <= |s| &&
      InLang(s[i..a], pat.head) && InLang(s[a..b], pat.group) && InLang(s[b..e], pat.tail) &&
      v == s[a..b];
    ScanComplete(s, i, a, pat.head);
    LitFirst(s[b..e], pat.tail);
    assert s[b] == s[b..e][0];
    ScanComplete(s, a, b, pat.group);
    ScanComplete(s, b, e, pat.tail);
  }

  /** Every match the scan from `p` reports is a match of the pattern. */
  lemma {:induction false} MatchesFromSound(s: string, pat: Pattern, p: nat)
    requires p <= |s| && WellFormed(pat)
    ensures forall k :: 0 <= k < |MatchesFrom(s, pat, p)| ==>
      IsMatch(s, pat, MatchesFrom(s, pat, p)[k].start, MatchesFrom(s, pat, p)[k].end, MatchesFrom(s, pat, p)[k].version)
    decreases |s| - p
  {
    if p < |s| {
      match MatchAt(s, pat, p)
      case Some(m) =>
        MatchAtSound(s, pat, p);
        MatchesFromSound(s, pat, m.end);
        assert MatchesFrom(s, pat, p) == [m] + MatchesFrom(s, pat, m.end);
      case None =>
        MatchesFromSound(s, pat, p + 1);
    }
  }

  /** Position `q` lies inside one of the matches `ms`. */
  ghost predicate Covers(ms: seq<Match>, q: int)
  {
    exists k :: 0 <= k < |ms| && ms[k].start <= q < ms[k].end
  }

  /**
   The scan from `p` misses nothing a leftmost-first search would find: every
   match of the pattern that starts at or after `p` starts at a reported
   match or inside one.
   */
  lemma {:induction false} MatchesFromComplete(s: string, pat: Pattern, p: nat)
    requires p <= |s| && WellFormed(pat)
    ensures forall q, e, v :: p <= q && IsMatch(s, pat, q, e, v) ==> Covers(MatchesFrom(s, pat, p), q)
    decreases |s| - p
  {
    var ms := MatchesFrom(s, pat, p);
    if p == |s| {
      forall q, e, v | p <= q && IsMatch(s, pat, q, e, v) ensures false {
        MatchAtComplete(s, pat, q, e, v);
      }
    } else {
      match MatchAt(s, pat, p)
      case Some(m) =>
        MatchesFromComplete(s, pat, m.end);
        var rest := MatchesFrom(s, pat, m.end);
        assert ms == [m] + rest;
        forall q, e, v | p <= q && IsMatch(s, pat, q, e, v) ensures Covers(ms, q) {
          if q < m.end {
            assert ms[0].start <= q < ms[0].end;
          } else {
            var k :| 0 <= k < |rest| && rest[k].start <= q < rest[k].end;
            assert ms[k + 1] == rest[k];
          }
        }
      case None =>
        MatchesFromComplete(s, pat, p + 1);
        assert ms == MatchesFrom(s, pat, p + 1);
        forall q, e, v | p <= q && IsMatch(s, pat, q, e, v) ensures Covers(ms, q) {
          if q == p {
            MatchAtComplete(s, pat, q, e, v);
            assert false;
          }
        }
    }
  }

  /**
   Every capture is a version (`VERSION`'s shape) that is the link text of a
   match of the whole pattern in `s`.
   */
  lemma CapturesAreVersions(s: string)
    ensures forall k :: 0 <= k < |Captures(s)| ==>
      InLang(Captures(s)[k], VERSION) && exists i, e :: IsMatch(s, GKE_LINK, i, e, Captures(s)[k])
  {
    PatternWellFormed();
    MatchesFromSound(s, GKE_LINK, 0);
    var ms := Matches(s);
    forall k | 0 <= k < |Captures(s)|
      ensures InLang(Captures(s)[k], VERSION) && exists i, e :: IsMatch(s, GKE_LINK, i, e, Captures(s)[k])
    {
      assert IsMatch(s, GKE_LINK, ms[k].start, ms[k].end, Captures(s)[k]);
    }
  }

}
