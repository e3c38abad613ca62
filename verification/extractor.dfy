/**
 * The parsers of CipherSweep.py over the scanner's text output:
 * `extract_ciphers`, which is `re.findall` of the pattern
 * `TLS_[A-Z_]+(?:_[A-Z0-9]+)+` followed by `strip()` of every match, and
 * `extract_tls_versions`, two substring tests.
 *
 * The pattern is not interpreted by a general regular-expression engine:
 * `MatchAt` is a scanner for this one pattern that makes the choices
 * Python's backtracking matcher makes. `[A-Z_]+` first takes the whole
 * run of `[A-Z_]` characters and gives characters back until a `_` followed
 * by a letter or digit starts the repeated group; the group then repeats as
 * long as another `_` followed by a letter or digit comes next. The
 * declarative meaning of the pattern is `PatternSpan`; the lemmas show the
 * scanner finds, at each start, the longest text matching it, and that
 * no match starts at a position outside the reported spans.
 */
module Extractor {
  import opened Text
  import opened Wrappers

  const CipherPrefix := "TLS_"
  const Tls10Marker := "TLSv1.0"
  const Tls11Marker := "TLSv1.1"

  /** `[A-Z]` */
  predicate IsUpper(c: char) { 'A' <= c <= 'Z' }

  /** `[0-9]` */
  predicate IsDigit(c: char) { '0' <= c <= '9' }

  /** `[A-Z_]`, the class of the head after `TLS_`. */
  predicate IsHead(c: char) { IsUpper(c) || c == '_' }

  /** `[A-Z0-9]`, the class inside each repeated group. */
  predicate IsTail(c: char) { IsUpper(c) || IsDigit(c) }

  /** `[A-Z0-9_]`: every character of a match is one of these. */
  predicate IsWord(c: char) { IsUpper(c) || IsDigit(c) || c == '_' }

  // ---------------------------------------------------------------------
  // Declarative meaning of the pattern, over index ranges of a text.

  /** `s[a..b]` is all `[A-Z_]`. */
  ghost predicate HeadSpan(s: string, a: int, b: int) {
    0 <= a <= b <= |s| && forall k :: a <= k < b ==> IsHead(s[k])
  }

  /** `s[a..b]` matches `(?:_[A-Z0-9]+)+`: it starts with `_`, is made of
      `[A-Z0-9_]`, never has two `_` in a row and does not end with `_`. */
  ghost predicate GroupsSpan(s: string, a: int, b: int) {
    && 0 <= a && a + 2 <= b <= |s|
    && s[a] == '_' && s[b - 1] != '_'
    && (forall k :: a <= k < b ==> IsWord(s[k]))
    && (forall k :: a <= k < b - 1 ==> !DoubleUnderscore(s, k))
  }

  /** Two underscores in a row at `k`. */
  predicate DoubleUnderscore(s: string, k: int) {
    0 <= k && k + 1 < |s| && s[k] == '_' && s[k + 1] == '_'
  }

  /** `s[a..b]` matches `TLS_[A-Z_]+(?:_[A-Z0-9]+)+` as a whole. */
  ghost predicate PatternSpan(s: string, a: int, b: int) {
    && 0 <= a && a + 4 <= b <= |s|
    && s[a..a + 4] == CipherPrefix
    && exists j :: a + 5 <= j && HeadSpan(s, a + 4, j) && GroupsSpan(s, j, b)
  }

  /** A whole string matches the pattern. */
  ghost predicate MatchesPattern(t: string) {
    PatternSpan(t, 0, |t|)
  }

  /** Some text matching the pattern starts at index `q`. */
  ghost predicate MatchStartsAt(s: string, q: int) {
    exists e :: PatternSpan(s, q, e)
  }

  /** The lexical shape of a cipher name as the tool reports it: starts with
      `TLS_`, only `A-Z`, `0-9`, `_`, and at least two underscores. */
  ghost predicate CipherShape(t: string) {
    && StartsWith(t, CipherPrefix)
    && (forall k :: 0 <= k < |t| ==> IsWord(t[k]))
    && exists i, j :: 0 <= i < j < |t| && t[i] == '_' && t[j] == '_'
  }

  // ---------------------------------------------------------------------
  // The scanner.

  /** End of the maximal `[A-Z_]` run starting at `i`. */
  function HeadRunEnd(s: string, i: nat): (r: nat)
    requires i <= |s|
    ensures i <= r <= |s|
    decreases |s| - i
  {
    if i < |s| && IsHead(s[i]) then HeadRunEnd(s, i + 1) else i
  }

  /** The head run is all `[A-Z_]` and cannot be extended. */
  lemma {:induction false} HeadRunSpec(s: string, i: nat)
    requires i <= |s|
    ensures HeadSpan(s, i, HeadRunEnd(s, i))
    ensures HeadRunEnd(s, i) == |s| || !IsHead(s[HeadRunEnd(s, i)])
    decreases |s| - i
  {
    if i < |s| && IsHead(s[i]) {
      HeadRunSpec(s, i + 1);
    }
  }

  /** End of the maximal `[A-Z0-9]` run starting at `i`. */
  function TailRunEnd(s: string, i: nat): (r: nat)
    requires i <= |s|
    ensures i <= r <= |s|
    decreases |s| - i
  {
    if i < |s| && IsTail(s[i]) then TailRunEnd(s, i + 1) else i
  }

  /** The group run is all `[A-Z0-9]` and cannot be extended. */
  lemma {:induction false} TailRunSpec(s: string, i: nat)
    requires i <= |s|
    ensures forall k :: i <= k < TailRunEnd(s, i) ==> IsTail(s[k])
    ensures TailRunEnd(s, i) == |s| || !IsTail(s[TailRunEnd(s, i)])
    decreases |s| - i
  {
    if i < |s| && IsTail(s[i]) {
      TailRunSpec(s, i + 1);
    }
  }

  /** A repeated group `_[A-Z0-9]+` can start at `q`. */
  predicate GroupStart(s: string, q: int) {
    0 <= q && q + 1 < |s| && s[q] == '_' && IsTail(s[q + 1])
  }

  /** Greedy `(?:_[A-Z0-9]+)+` from a group start: each group takes its
      whole `[A-Z0-9]` run, and another group follows while one can. */
  function GroupsEnd(s: string, q: nat): (e: nat)
    requires GroupStart(s, q)
    ensures q + 2 <= e <= |s|
    decreases |s| - q
  {
    var e1 := TailRunEnd(s, q + 1);
    if GroupStart(s, e1) then GroupsEnd(s, e1) else e1
  }

  /** The greedy groups form a groups span. */
  lemma {:induction false} GroupsEndSpec(s: string, q: nat)
    requires GroupStart(s, q)
    ensures GroupsSpan(s, q, GroupsEnd(s, q))
    decreases |s| - q
  {
    var e1 := TailRunEnd(s, q + 1);
    TailRunSpec(s, q + 1);
    if GroupStart(s, e1) {
      GroupsEndSpec(s, e1);
      var e := GroupsEnd(s, e1);
      forall k | q <= k < e - 1 ensures !DoubleUnderscore(s, k) {
        if k > e1 {
          assert e1 <= k < e - 1;
        }
      }
    }
  }

  /** The last group start in `lo..hi`, searching downwards: the point where
      the backtracking `[A-Z_]+` stops giving characters back. */
  function LastGroupStart(s: string, lo: int, hi: int): (r: Option<nat>)
    ensures r.Some? ==> lo <= r.value <= hi && GroupStart(s, r.value)
    decreases hi - lo
  {
    if hi < lo then None
    else if GroupStart(s, hi) then Some(hi)
    else LastGroupStart(s, lo, hi - 1)
  }

  /** No group start lies after the one found, nor anywhere in the range
      when none is found. */
  lemma {:induction false} LastGroupStartSpec(s: string, lo: int, hi: int)
    ensures var r := LastGroupStart(s, lo, hi);
            && (r.Some? ==> forall q :: r.value < q <= hi ==> !GroupStart(s, q))
            && (r.None? ==> forall q :: lo <= q <= hi ==> !GroupStart(s, q))
    decreases hi - lo
  {
    if lo <= hi && !GroupStart(s, hi) {
      LastGroupStartSpec(s, lo, hi - 1);
    }
  }

  /** End of the match of the pattern starting at `p`, if there is one:
      after `TLS_`, the head takes the maximal `[A-Z_]` run and gives back
      characters down to the last group start, from which the groups run
      greedily. */
  function MatchAt(s: string, p: nat): (r: Option<nat>)
    requires p <= |s|
    ensures r.Some? ==> p + 7 <= r.value <= |s|
  {
    if p + 4 <= |s| && s[p..p + 4] == CipherPrefix then
      var m := HeadRunEnd(s, p + 4);
      match LastGroupStart(s, p + 5, m - 1)
      case Some(q) => Some(GroupsEnd(s, q))
      case None => None
    else
      None
  }

  /** The scanner's match is a match of the pattern, and when it finds none
      no text matching the pattern starts at `p`. */
  lemma MatchAtSpec(s: string, p: nat)
    requires p <= |s|
    ensures MatchAt(s, p).Some? ==> PatternSpan(s, p, MatchAt(s, p).value)
    ensures MatchAt(s, p).None? ==> !MatchStartsAt(s, p)
  {
    if p + 4 <= |s| && s[p..p + 4] == CipherPrefix {
      var m := HeadRunEnd(s, p + 4);
      HeadRunSpec(s, p + 4);
      LastGroupStartSpec(s, p + 5, m - 1);
      match LastGroupStart(s, p + 5, m - 1)
      case Some(q) =>
        GroupsEndSpec(s, q);
        assert HeadSpan(s, p + 4, q);
      case None =>
        forall e | PatternSpan(s, p, e) ensures false {
          var j :| p + 5 <= j && HeadSpan(s, p + 4, j) && GroupsSpan(s, j, e);
          GroupsSpanStarts(s, j, e);
        }
    }
  }

  /** A groups span begins with a group start. */
  lemma GroupsSpanStarts(s: string, a: int, b: int)
    requires GroupsSpan(s, a, b)
    ensures GroupStart(s, a)
  {
    assert IsWord(s[a + 1]);
    if a + 1 < b - 1 {
      assert !DoubleUnderscore(s, a);
    }
  }

  /** The maximal `[A-Z_]` run from `i` reaches past every all-`[A-Z_]`
      stretch that starts at `i`. */
  lemma {:induction false} HeadRunCovers(s: string, i: nat, b: int)
    requires i <= |s| && HeadSpan(s, i, b)
    ensures b <= HeadRunEnd(s, i)
    decreases |s| - i
  {
    if i < b {
      HeadRunCovers(s, i + 1, b);
    }
  }

  /** The spans `findall` reports in the last `n` characters of `s`, that
      is from position `|s| - n` on: the match there if there is one,
      scanning on from its end; otherwise the spans from the next position. */
  function ScanLast(s: string, n: nat): (r: seq<(nat, nat)>)
    requires n <= |s|
    ensures forall k :: 0 <= k < |r| ==> |s| - n <= r[k].0 <= r[k].1 <= |s|
    decreases n
  {
    if n == 0 then []
    else
      var p := |s| - n;
      var next := MatchAt(s, p);
      if next.Some? then [(p, next.value)] + ScanLast(s, |s| - next.value)
      else ScanLast(s, n - 1)
  }

  /** The spans `findall` reports from position `p` on: each lies at or
      after `p` within the text (`ScanSpans`, `ScanOrdered`, `ScanIsLongest`
      and `ScanIsLeftmost` say which they are). */
  function Scan(s: string, p: nat): (r: seq<(nat, nat)>)
    requires p <= |s|
    ensures forall k :: 0 <= k < |r| ==> p <= r[k].0 <= r[k].1 <= |s|
  {
    ScanLast(s, |s| - p)
  }

  /** How `findall` moves on from position `p < |s|`. */
  lemma ScanStep(s: string, p: nat)
    requires p < |s|
    ensures MatchAt(s, p).Some? ==>
              Scan(s, p) == [(p, MatchAt(s, p).value)] + Scan(s, MatchAt(s, p).value)
    ensures MatchAt(s, p).None? ==> Scan(s, p) == Scan(s, p + 1)
  {
  }

  /** Every span reported from `p` on starts at `p` or later and matches
      the pattern. */
  lemma {:induction false} ScanSpans(s: string, p: nat)
    requires p <= |s|
    ensures var r := Scan(s, p);
            forall k :: 0 <= k < |r| ==> p <= r[k].0 && PatternSpan(s, r[k].0, r[k].1)
    decreases |s| - p
  {
    if p < |s| {
      ScanStep(s, p);
      MatchAtSpec(s, p);
      match MatchAt(s, p)
      case Some(e) =>
        ScanSpans(s, e);
        var rest := Scan(s, e);
        forall k | 1 <= k < |rest| + 1
          ensures ([(p, e)] + rest)[k] == rest[k - 1]
        {
        }
      case None =>
        ScanSpans(s, p + 1);
    }
  }

  /** The spans reported from `p` on come in text order without
      overlapping. */
  lemma {:induction false} ScanOrdered(s: string, p: nat)
    requires p <= |s|
    ensures var r := Scan(s, p);
            forall i, j :: 0 <= i < j < |r| ==> r[i].1 <= r[j].0
    decreases |s| - p
  {
    if p < |s| {
      ScanStep(s, p);
      match MatchAt(s, p)
      case Some(e) =>
        ScanOrdered(s, e);
        var rest := Scan(s, e);
        assert forall k :: 0 <= k < |rest| ==> e <= rest[k].0;
        forall k | 1 <= k < |rest| + 1
          ensures ([(p, e)] + rest)[k] == rest[k - 1]
        {
        }
      case None =>
        ScanOrdered(s, p + 1);
    }
  }

  /** The texts of a list of spans. */
  function SpanTexts(s: string, spans: seq<(nat, nat)>): (r: seq<string>)
    requires forall k :: 0 <= k < |spans| ==> spans[k].0 <= spans[k].1 <= |s|
    ensures |r| == |spans|
    ensures forall k :: 0 <= k < |r| ==> r[k] == s[spans[k].0..spans[k].1]
  {
    seq(|spans|, k requires 0 <= k < |spans| => s[spans[k].0..spans[k].1])
  }

  /** `re.findall` of the cipher pattern over the whole text: one text per
      scanned span, each matching the pattern as a whole. */
  function FindAll(s: string): (r: seq<string>)
    ensures |r| == |Scan(s, 0)|
    ensures forall k :: 0 <= k < |r| ==> MatchesPattern(r[k])
  {
    ScannedTextsMatch(s, 0);
    SpanTexts(s, Scan(s, 0))
  }

  /** The text of every span scanned from `p` on matches the pattern. */
  lemma ScannedTextsMatch(s: string, p: nat)
    requires p <= |s|
    ensures var spans := Scan(s, p);
            forall k :: 0 <= k < |spans| ==> MatchesPattern(s[spans[k].0..spans[k].1])
  {
    var spans := Scan(s, p);
    ScanSpans(s, p);
    forall k | 0 <= k < |spans| ensures MatchesPattern(s[spans[k].0..spans[k].1]) {
      PatternSpanSlice(s, spans[k].0, spans[k].1);
    }
  }

  /** `strip()` applied to each element. */
  function StripEach(ts: seq<string>): (r: seq<string>)
    ensures |r| == |ts|
    ensures forall k :: 0 <= k < |ts| ==> r[k] == Strip(ts[k])
  {
    seq(|ts|, k requires 0 <= k < |ts| => Strip(ts[k]))
  }

  /** `extract_ciphers`: every match of the pattern, stripped. Stripping
      changes none of them, and each has the cipher-name shape. */
  function ExtractCiphers(s: string): (r: seq<string>)
    ensures r == FindAll(s)
    ensures forall k :: 0 <= k < |r| ==> CipherShape(r[k])
  {
    MatchesAreStripped(FindAll(s));
    StripEach(FindAll(s))
  }

  /** `extract_tls_versions`: whether each legacy-version marker occurs. */
  function ExtractTlsVersions(s: string): (r: (bool, bool))
    ensures r.0 <==> IsSubstring(Tls10Marker, s)
    ensures r.1 <==> IsSubstring(Tls11Marker, s)
  {
    (Contains(s, Tls10Marker), Contains(s, Tls11Marker))
  }

  // ---------------------------------------------------------------------
  // Lemmas.

  /** The pattern holds of a span exactly when it holds of the sliced text. */
  lemma PatternSpanSlice(s: string, a: int, b: int)
    requires 0 <= a <= b <= |s|
    ensures PatternSpan(s, a, b) <==> MatchesPattern(s[a..b])
  {
    var t := s[a..b];
    assert forall k :: 0 <= k < |t| ==> t[k] == s[a + k];
    if PatternSpan(s, a, b) {
      var j :| a + 5 <= j && HeadSpan(s, a + 4, j) && GroupsSpan(s, j, b);
      assert t[0..4] == s[a..a + 4];
      assert HeadSpan(t, 4, j - a);
      forall k | j - a <= k < b - a - 1 ensures !DoubleUnderscore(t, k) {
        assert !DoubleUnderscore(s, a + k);
      }
      assert GroupsSpan(t, j - a, b - a);
    }
    if MatchesPattern(t) {
      var j :| 5 <= j && HeadSpan(t, 4, j) && GroupsSpan(t, j, |t|);
      assert t[0..4] == s[a..a + 4];
      assert HeadSpan(s, a + 4, a + j);
      forall k | a + j <= k < b - 1 ensures !DoubleUnderscore(s, k) {
        assert !DoubleUnderscore(t, k - a);
      }
      assert GroupsSpan(s, a + j, b);
    }
  }

  /** Every character of a match is in `[A-Z0-9_]`. */
  lemma PatternSpanWords(s: string, a: int, b: int)
    requires PatternSpan(s, a, b)
    ensures forall k :: a <= k < b ==> IsWord(s[k])
  {
    var j :| a + 5 <= j && HeadSpan(s, a + 4, j) && GroupsSpan(s, j, b);
    assert s[a..a + 4] == CipherPrefix;
    assert forall k :: a <= k < a + 4 ==> s[k] == CipherPrefix[k - a];
  }

  /** A whole match has the reported cipher-name shape. */
  lemma MatchShape(t: string)
    requires MatchesPattern(t)
    ensures CipherShape(t)
  {
    PatternSpanWords(t, 0, |t|);
    var j :| 5 <= j && HeadSpan(t, 4, j) && GroupsSpan(t, j, |t|);
    assert t[..4] == CipherPrefix;
    assert t[3] == '_' && t[j] == '_';
  }

  /** `strip()` leaves every match unchanged: no match holds whitespace. */
  lemma MatchIsStripped(t: string)
    requires MatchesPattern(t)
    ensures Strip(t) == t
  {
    PatternSpanWords(t, 0, |t|);
    StripUnchanged(t);
  }

  /** Stripping a list of matches changes none of them, and each has the
      cipher-name shape. */
  lemma MatchesAreStripped(found: seq<string>)
    requires forall k :: 0 <= k < |found| ==> MatchesPattern(found[k])
    ensures StripEach(found) == found
    ensures forall k :: 0 <= k < |found| ==> CipherShape(found[k])
  {
    forall k | 0 <= k < |found|
      ensures Strip(found[k]) == found[k] && CipherShape(found[k])
    {
      MatchIsStripped(found[k]);
      MatchShape(found[k]);
    }
  }

  /** The extracted names are exactly the texts of the scanned spans, so
      (by `ScanOrdered`) non-overlapping occurrences in text order,
      duplicates kept; each matches the pattern as a whole. */
  lemma {:induction false} ExtractedAreOccurrences(s: string)
    ensures var spans := Scan(s, 0);
            var r := ExtractCiphers(s);
            && |r| == |spans|
            && (forall k :: 0 <= k < |r| ==> MatchesPattern(r[k]) && r[k] == s[spans[k].0..spans[k].1])
  {
    ExtractedTexts(s);
    ExtractedMatch(s);
  }

  /** Each extracted name matches the pattern as a whole. */
  lemma ExtractedMatch(s: string)
    ensures var r := ExtractCiphers(s);
            forall k :: 0 <= k < |r| ==> MatchesPattern(r[k])
  {
  }

  /** The extracted names are the texts of the scanned spans. */
  lemma ExtractedTexts(s: string)
    ensures var spans := Scan(s, 0);
            var r := ExtractCiphers(s);
            |r| == |spans| && forall k :: 0 <= k < |r| ==> r[k] == s[spans[k].0..spans[k].1]
  {
    assert ExtractCiphers(s) == SpanTexts(s, Scan(s, 0));
  }

  /** Greedy groups reach at least as far as any groups span from the same
      group start. */
  lemma {:induction false} GroupsEndLongest(s: string, q: nat, e': int)
    requires GroupStart(s, q) && GroupsSpan(s, q, e')
    ensures e' <= GroupsEnd(s, q)
    decreases |s| - q
  {
    var e1 := TailRunEnd(s, q + 1);
    TailRunSpec(s, q + 1);
    if e' > e1 {
      assert IsWord(s[e1]) && !IsTail(s[e1]);
      assert s[e1] == '_';
      assert e1 + 1 < e';
      assert !DoubleUnderscore(s, e1);
      assert IsWord(s[e1 + 1]);
      assert GroupStart(s, e1);
      assert GroupsSpan(s, e1, e');
      GroupsEndLongest(s, e1, e');
    }
  }

  /** The scanner's match at `p` is the longest text from `p` matching the
      pattern. */
  lemma MatchAtLongest(s: string, p: nat, e': int)
    requires p <= |s| && MatchAt(s, p).Some? && PatternSpan(s, p, e')
    ensures e' <= MatchAt(s, p).value
  {
    var m := HeadRunEnd(s, p + 4);
    var q := LastGroupStart(s, p + 5, m - 1).value;
    LastGroupStartSpec(s, p + 5, m - 1);
    var j :| p + 5 <= j && HeadSpan(s, p + 4, j) && GroupsSpan(s, j, e');
    GroupsSpanStarts(s, j, e');
    HeadRunCovers(s, p + 4, j + 1);
    assert j <= q;
    if e' > q + 1 {
      assert GroupsSpan(s, q, e');
      GroupsEndLongest(s, q, e');
    }
  }

  /** A match that ends at the end of the text or before a character outside
      `[A-Z0-9_]` is the one the scanner finds. */
  lemma MatchAtBoundary(s: string, p: nat, e: int)
    requires p <= |s| && PatternSpan(s, p, e)
    requires e == |s| || !IsWord(s[e])
    ensures MatchAt(s, p) == Some(e)
  {
    MatchAtSpec(s, p);
    var e0 := MatchAt(s, p).value;
    MatchAtLongest(s, p, e);
    PatternSpanWords(s, p, e0);
  }

  /** Position `q` lies inside one of the spans. */
  ghost predicate Covered(spans: seq<(nat, nat)>, q: int) {
    exists k :: 0 <= k < |spans| && spans[k].0 <= q < spans[k].1
  }

  /** Each span is the longest match of the pattern at its start. */
  ghost predicate EachLongest(s: string, spans: seq<(nat, nat)>) {
    forall k, e :: 0 <= k < |spans| && PatternSpan(s, spans[k].0, e) ==> e <= spans[k].1
  }

  /** No match of the pattern starts at a position from `p` on that no span
      covers. */
  ghost predicate NoneMissed(s: string, p: int, spans: seq<(nat, nat)>) {
    forall q :: p <= q < |s| && !Covered(spans, q) ==> !MatchStartsAt(s, q)
  }

  /** Each span `findall` reports is the longest match at its start. */
  lemma {:induction false} ScanIsLongest(s: string, p: nat)
    requires p <= |s|
    ensures EachLongest(s, Scan(s, p))
    decreases |s| - p
  {
    var r := Scan(s, p);
    if p < |s| {
      ScanStep(s, p);
      MatchAtSpec(s, p);
      match MatchAt(s, p)
      case Some(e) =>
        ScanIsLongest(s, e);
        var rest := Scan(s, e);
        assert r == [(p, e)] + rest;
        forall k, e' | 0 <= k < |r| && PatternSpan(s, r[k].0, e') ensures e' <= r[k].1 {
          if k == 0 {
            assert r[0] == (p, e);
            MatchAtLongest(s, p, e');
            assert e' <= e;
          } else {
            assert r[k] == rest[k - 1];
            assert PatternSpan(s, rest[k - 1].0, e');
            assert e' <= rest[k - 1].1;
          }
        }
      case None =>
        ScanIsLongest(s, p + 1);
        assert r == Scan(s, p + 1);
    }
  }

  /** No match starts at a position from `p` on that no reported span
      covers. A match starting inside a reported span is not reported. */
  lemma {:induction false} ScanIsLeftmost(s: string, p: nat)
    requires p <= |s|
    ensures NoneMissed(s, p, Scan(s, p))
    decreases |s| - p
  {
    var r := Scan(s, p);
    if p < |s| {
      ScanStep(s, p);
      MatchAtSpec(s, p);
      match MatchAt(s, p)
      case Some(e) =>
        ScanIsLeftmost(s, e);
        var rest := Scan(s, e);
        assert r == [(p, e)] + rest;
        forall q | p <= q < |s| ensures Covered(r, q) || !MatchStartsAt(s, q) {
          if q < e {
            assert r[0].0 <= q < r[0].1;
          } else if Covered(rest, q) {
            var k :| 0 <= k < |rest| && rest[k].0 <= q < rest[k].1;
            assert r[k + 1] == rest[k];
          }
        }
      case None =>
        ScanIsLeftmost(s, p + 1);
        assert r == Scan(s, p + 1);
    }
  }

  /** A text in which no match starts anywhere yields no cipher names, and
      conversely. */
  lemma NoCiphersIffNoMatch(s: string)
    ensures ExtractCiphers(s) == [] <==> forall q :: 0 <= q < |s| ==> !MatchStartsAt(s, q)
  {
    var r := Scan(s, 0);
    ExtractedAreOccurrences(s);
    ScanSpans(s, 0);
    if r == [] {
      ScanIsLeftmost(s, 0);
      forall q | 0 <= q < |s| ensures !MatchStartsAt(s, q) {
        assert !Covered(r, q);
      }
    } else {
      assert MatchStartsAt(s, r[0].0);
    }
  }

  /** Text without `TLS_` anywhere yields no cipher names. */
  lemma NoPrefixNoCiphers(s: string)
    ensures !IsSubstring(CipherPrefix, s) ==> ExtractCiphers(s) == []
  {
    var r := Scan(s, 0);
    ExtractedAreOccurrences(s);
    ScanSpans(s, 0);
    if r != [] {
      assert OccursAt(CipherPrefix, s, r[0].0);
    }
  }

  /** Skipping over positions where `TLS_` does not begin changes nothing. */
  lemma {:induction false} ScanSkips(s: string, p: nat, p': nat)
    requires p <= p' <= |s|
    requires forall q :: p <= q < p' ==> !OccursAt(CipherPrefix, s, q)
    ensures Scan(s, p) == Scan(s, p')
    decreases p' - p
  {
    if p < p' {
      assert !OccursAt(CipherPrefix, s, p);
      assert MatchAt(s, p) == None;
      ScanSkips(s, p + 1, p');
    }
  }

  /** A whole cipher name written at `p` and followed by the end of the
      text or a space is reported as one span, scanning on after it. */
  lemma ScanAtName(s: string, p: nat, t: string)
    requires p + |t| <= |s| && s[p..p + |t|] == t && MatchesPattern(t)
    requires p + |t| == |s| || s[p + |t|] == ' '
    ensures Scan(s, p) == [(p, p + |t|)] + Scan(s, p + |t|)
  {
    PatternSpanSlice(s, p, p + |t|);
    MatchAtBoundary(s, p, p + |t|);
  }

  /** A space never starts a match. */
  lemma ScanAtSpace(s: string, q: nat)
    requires q < |s| && s[q] == ' '
    ensures Scan(s, q) == Scan(s, q + 1)
  {
    assert MatchAt(s, q) == None by {
      if q + 4 <= |s| {
        assert s[q..q + 4][0] == ' ';
      }
    }
  }

  /** A whole cipher name written at `p` and followed by a space is
      reported as one span, scanning on after the space. */
  lemma ScanAtNameSpace(s: string, p: nat, t: string)
    requires p + |t| < |s| && s[p..p + |t|] == t && MatchesPattern(t)
    requires s[p + |t|] == ' '
    ensures |Scan(s, p)| > 0 && Scan(s, p)[0] == (p, p + |t|)
    ensures Scan(s, p)[1..] == Scan(s, p + |t| + 1)
  {
    ScanAtName(s, p, t);
    ScanAtSpace(s, p + |t|);
    var rest := Scan(s, p + |t| + 1);
    assert ([(p, p + |t|)] + rest)[1..] == rest;
  }

  /** The texts of one span followed by more spans: the first span's text
      followed by the texts of the others. */
  lemma SpanTextsCons(s: string, spans: seq<(nat, nat)>, t: string, tail: seq<string>)
    requires |spans| > 0 && spans[0].0 <= spans[0].1 <= |s|
    requires forall k :: 0 <= k < |spans| ==> spans[k].0 <= spans[k].1 <= |s|
    requires s[spans[0].0..spans[0].1] == t && SpanTexts(s, spans[1..]) == tail
    ensures SpanTexts(s, spans) == [t] + tail
  {
    var r := SpanTexts(s, spans);
    assert |r| == |tail| + 1;
    forall k | 1 <= k < |r| ensures r[k] == tail[k - 1] {
      assert spans[k] == spans[1..][k - 1];
    }
  }

  /** Where a text is a name, a space and more, the parts sit at the
      expected indices. */
  lemma SplitAtSpace(s: string, p: nat, t: string, tail: string)
    requires p <= |s| && s[p..] == t + " " + tail
    ensures p + |t| < |s| && s[p..p + |t|] == t && s[p + |t|] == ' '
    ensures s[p + |t| + 1..] == tail
  {
    var u := s[p..];
    assert forall k :: 0 <= k < |u| ==> u[k] == s[p + k];
    assert u[..|t|] == t;
    assert u[|t|] == ' ';
    assert u[|t| + 1..] == tail;
  }

  /** The texts scanned from a whole name followed by a space are that
      name followed by the texts scanned after the space. */
  lemma ScanNameThenRest(s: string, p: nat, names: seq<string>)
    requires |names| > 0 && MatchesPattern(names[0])
    requires p + |names[0]| < |s| && s[p..p + |names[0]|] == names[0]
    requires s[p + |names[0]|] == ' '
    requires SpanTexts(s, Scan(s, p + |names[0]| + 1)) == names[1..]
    ensures SpanTexts(s, Scan(s, p)) == names
  {
    var t := names[0];
    ScanAtNameSpace(s, p, t);
    var spans := Scan(s, p);
    SpanTextsCons(s, spans, t, names[1..]);
    assert names == [t] + names[1..];
  }

  /** A whole name that runs to the end of the text is scanned as the
      one text found there. */
  lemma ScanLastName(s: string, p: nat, t: string)
    requires p <= |s| && s[p..] == t && MatchesPattern(t)
    ensures SpanTexts(s, Scan(s, p)) == [t]
  {
    assert s[p..p + |t|] == t;
    ScanAtName(s, p, t);
    assert Scan(s, p + |t|) == [];
    SpanTextsCons(s, Scan(s, p), t, []);
  }

  /** Every name of the list matches the pattern as a whole. */
  ghost predicate AllMatch(names: seq<string>)
    decreases |names|
  {
    |names| == 0 || (MatchesPattern(names[0]) && AllMatch(names[1..]))
  }

  /** `AllMatch` holds exactly when each name matches. */
  lemma {:induction false} AllMatchEach(names: seq<string>)
    ensures AllMatch(names) <==> forall k :: 0 <= k < |names| ==> MatchesPattern(names[k])
    decreases |names|
  {
    if |names| > 0 {
      AllMatchEach(names[1..]);
      assert forall k :: 1 <= k < |names| ==> names[k] == names[1..][k - 1];
    }
  }

  /** Where names joined by spaces begin at `p`, the first name sits at
      `p`, a space follows it, and the other names joined follow that. */
  lemma JoinedHead(s: string, p: nat, names: seq<string>)
    requires |names| > 1
    requires p <= |s| && s[p..] == Join(" ", names)
    ensures p + |names[0]| < |s| && s[p..p + |names[0]|] == names[0]
    ensures s[p + |names[0]|] == ' '
    ensures s[p + |names[0]| + 1..] == Join(" ", names[1..])
  {
    SplitAtSpace(s, p, names[0], Join(" ", names[1..]));
  }

  /** Scanning text that is cipher names joined by single spaces, from
      where that text begins, reports exactly those names. */
  lemma {:induction false} ScanJoined(s: string, p: nat, names: seq<string>)
    requires p <= |s| && s[p..] == Join(" ", names)
    requires AllMatch(names)
    ensures SpanTexts(s, Scan(s, p)) == names
    decreases |names|, 1
  {
    if |names| == 0 {
      assert |s[p..]| == 0;
    } else if |names| == 1 {
      ScanLastName(s, p, names[0]);
    } else {
      ScanJoinedMany(s, p, names);
    }
  }

  /** `ScanJoined` for two names or more: the first name, then the rest
      after the space. */
  lemma {:induction false} ScanJoinedMany(s: string, p: nat, names: seq<string>)
    requires |names| > 1
    requires p <= |s| && s[p..] == Join(" ", names)
    requires AllMatch(names)
    ensures SpanTexts(s, Scan(s, p)) == names
    decreases |names|, 0
  {
    JoinedHead(s, p, names);
    ScanJoined(s, p + |names[0]| + 1, names[1..]);
    ScanNameThenRest(s, p, names);
  }

  /** Round trip: cipher names that each match the pattern, joined by
      spaces, are extracted back exactly, in order, duplicates included. */
  lemma ExtractJoinedNames(names: seq<string>)
    requires forall k :: 0 <= k < |names| ==> MatchesPattern(names[k])
    ensures ExtractCiphers(Join(" ", names)) == names
  {
    var s := Join(" ", names);
    AllMatchEach(names);
    ScanJoined(s, 0, names);
    ExtractedAreOccurrences(s);
  }

  /** Text that is exactly one standard cipher name yields that name alone. */
  lemma ExtractSingleName()
    ensures ExtractCiphers("TLS_AES_128_GCM_SHA256") == ["TLS_AES_128_GCM_SHA256"]
  {
    var t := "TLS_AES_128_GCM_SHA256";
    assert HeadSpan(t, 4, 7);
    assert GroupsSpan(t, 7, |t|);
    assert MatchesPattern(t);
    ExtractJoinedNames([t]);
  }

  /** The pattern needs a `_` before the first digit after `TLS_`: a name
      whose first word after the prefix holds a digit, such as
      `TLS_CHACHA20_POLY1305_SHA256`, is not extracted at all. */
  lemma DigitInFirstWordMissed()
    ensures ExtractCiphers("TLS_CHACHA20_POLY1305_SHA256") == []
  {
    var s := "TLS_CHACHA20_POLY1305_SHA256";
    forall q | 0 <= q < |s| ensures !MatchStartsAt(s, q) {
      if q == 0 {
        forall e | PatternSpan(s, 0, e) ensures false {
          var j :| 5 <= j && HeadSpan(s, 4, j) && GroupsSpan(s, j, e);
          ChachaHeadHasNoGroup(j);
        }
      } else if q + 4 <= |s| {
        assert s[q..q + 4] != CipherPrefix by {
          assert s[q..q + 4][0] == s[q];
          assert s[q..q + 4][3] == s[q + 3];
        }
      }
    }
    NoCiphersIffNoMatch(s);
  }

  /** In `TLS_CHACHA20_POLY1305_SHA256` the `[A-Z_]` run after the prefix
      stops at the digit `2`, and no `_` ends any part of it. */
  lemma ChachaHeadHasNoGroup(j: int)
    requires 5 <= j && HeadSpan("TLS_CHACHA20_POLY1305_SHA256", 4, j)
    ensures j <= 10 && "TLS_CHACHA20_POLY1305_SHA256"[j] != '_'
  {
    var s := "TLS_CHACHA20_POLY1305_SHA256";
    assert !IsHead(s[10]);
  }

  /** With neither legacy marker in the text, both flags are false. */
  lemma NoMarkersNoFlags(s: string)
    requires !IsSubstring(Tls10Marker, s) && !IsSubstring(Tls11Marker, s)
    ensures ExtractTlsVersions(s) == (false, false)
  {
  }
}
