/** Extracting archive names from the index page, as
    `re.findall('"[0-9A-Za-z-]+.txt.gz"', page)` does, and deriving the
    local file name from each extracted token.

    The dots in the pattern are not escaped, so each stands for any
    character except a newline; a token therefore ends in
    `<any>txt<any>gz"`, of which `.txt.gz"` is only one instance. */
module ArchiveIndex {
  import opened Wrappers
  import opened Text

  /** A character of the class `[0-9A-Za-z-]`. */
  predicate IsNameChar(c: char) {
    ('0' <= c <= '9') || ('A' <= c <= 'Z') || ('a' <= c <= 'z') || c == '-'
  }

  /** What an unescaped `.` matches in a pattern compiled without DOTALL. */
  predicate IsAnyChar(c: char) {
    c != '\n'
  }

  /** The fixed-length part `.txt.gz"` of the pattern matches the eight
      characters starting at `p`. */
  predicate TailAt(s: string, p: nat) {
    && p + 8 <= |s|
    && IsAnyChar(s[p]) && s[p + 1] == 't' && s[p + 2] == 'x' && s[p + 3] == 't'
    && IsAnyChar(s[p + 4]) && s[p + 5] == 'g' && s[p + 6] == 'z' && s[p + 7] == '"'
  }

  /** `t` as a whole matches `"[0-9A-Za-z-]+.txt.gz"`: a quote, a non-empty
      run of name characters, then the tail. */
  predicate IsToken(t: string) {
    && |t| >= 10
    && t[0] == '"'
    && (forall k :: 1 <= k < |t| - 8 ==> IsNameChar(t[k]))
    && TailAt(t, |t| - 8)
  }

  /** The pattern matches `s[i..e]`. */
  predicate IsMatch(s: string, i: nat, e: nat) {
    i <= e <= |s| && IsToken(s[i..e])
  }

  /** No match of the pattern starts at `i`. */
  ghost predicate NoMatchAt(s: string, i: nat) {
    forall e: nat :: !IsMatch(s, i, e)
  }

  /** The end of the maximal run of name characters starting at `p`: how far
      the greedy `[0-9A-Za-z-]+` first reaches. */
  function RunEnd(s: string, p: nat): (q: nat)
    requires p <= |s|
    ensures p <= q <= |s|
    ensures forall k :: p <= k < q ==> IsNameChar(s[k])
    ensures q < |s| ==> !IsNameChar(s[q])
    decreases |s| - p
  {
    if p == |s| || !IsNameChar(s[p]) then p else RunEnd(s, p + 1)
  }

  /** The tail of `s[i..e]` is the tail of `s` just before `e`. */
  lemma TailShift(s: string, i: nat, e: nat)
    requires i + 8 <= e <= |s|
    ensures TailAt(s[i..e], e - i - 8) <==> TailAt(s, e - 8)
  {
    var t := s[i..e];
    assert forall k :: e - i - 8 <= k < e - i ==> t[k] == s[i + k];
  }

  /** For a quote at `i` and an end `e` leaving a non-empty run, the pattern
      matches `s[i..e]` exactly when the run stays within the greedy run and
      the tail matches just before `e`. */
  lemma MatchIff(s: string, i: nat, e: nat)
    requires i < |s| && s[i] == '"'
    requires i + 10 <= e <= |s|
    ensures IsMatch(s, i, e) <==> e - 8 <= RunEnd(s, i + 1) && TailAt(s, e - 8)
  {
    var t := s[i..e];
    TailShift(s, i, e);
    assert forall k :: 1 <= k < |t| - 8 ==> t[k] == s[i + k];
  }

  /** Backtracking of the greedy run: the candidate ends `e`, `e - 1`, ...
      are tried in turn and the first at which the tail matches is taken. */
  function Backtrack(s: string, i: nat, e: nat): (r: Option<nat>)
    requires i < |s| && s[i] == '"'
    requires e <= |s| && e <= RunEnd(s, i + 1) + 8
    ensures r.Some? ==> IsMatch(s, i, r.value) && r.value <= e
    ensures forall e': nat :: IsMatch(s, i, e') && e' <= e ==> r.Some? && e' <= r.value
    decreases e
  {
    if e < i + 10 then None
    else if TailAt(s, e - 8) then
      MatchIff(s, i, e);
      Some(e)
    else
      MatchIff(s, i, e);
      Backtrack(s, i, e - 1)
  }

  /** The match of the pattern at `i`, if any: the longest one, because the
      run is greedy and the rest of the pattern has a fixed length. */
  function MatchAt(s: string, i: nat): (r: Option<nat>)
    requires i < |s|
    ensures r.Some? ==> IsMatch(s, i, r.value)
    ensures r.Some? ==> forall e: nat :: IsMatch(s, i, e) ==> e <= r.value
    ensures r.None? ==> NoMatchAt(s, i)
  {
    if s[i] != '"' then
      None
    else
      var q := RunEnd(s, i + 1);
      var top := if q + 8 <= |s| then q + 8 else |s|;
      assert forall e: nat :: IsMatch(s, i, e) ==> e <= top by {
        forall e: nat | IsMatch(s, i, e) && e > top
          ensures false
        {
          MatchIff(s, i, e);
        }
      }
      Backtrack(s, i, top)
  }

  /** A match: where it starts and where it ends in the page. */
  datatype Span = Span(start: nat, end: nat)

  /** Where the scan resumes before looking for the `k`-th match. */
  function ResumeAt(spans: seq<Span>, from: nat, k: nat): nat
    requires k <= |spans|
  {
    if k == 0 then from else spans[k - 1].end
  }

  /** Where the `k`-th match starts, or the end of the page after the last. */
  function NextStart(s: string, spans: seq<Span>, k: nat): nat
    requires k <= |spans|
  {
    if k < |spans| then spans[k].start else |s|
  }

  /** The scan from `from` steps over no match: between where it resumes and
      where it next reports a match, no match starts. */
  ghost predicate SkipsNoMatch(s: string, spans: seq<Span>, from: nat) {
    forall k, p :: 0 <= k <= |spans| && ResumeAt(spans, from, k) <= p < NextStart(s, spans, k) ==>
      NoMatchAt(s, p)
  }

  /** What the scan promises of its matches from `from` on: each is a
      match, the longest at its start, and they come in page order without
      overlap. */
  ghost predicate LongestInOrder(s: string, spans: seq<Span>, from: nat) {
    && (forall k :: 0 <= k < |spans| ==>
          ResumeAt(spans, from, k) <= spans[k].start && IsMatch(s, spans[k].start, spans[k].end))
    && (forall k, e: nat :: 0 <= k < |spans| && IsMatch(s, spans[k].start, e) ==>
          e <= spans[k].end)
  }

  /** Putting a span in front shifts the positions of the others by one. */
  lemma ConsSpan(s: string, x: Span, rest: seq<Span>, k: nat)
    requires 1 <= k <= |rest| + 1
    ensures ResumeAt([x] + rest, x.start, k) == ResumeAt(rest, x.end, k - 1)
    ensures NextStart(s, [x] + rest, k) == NextStart(s, rest, k - 1)
    ensures k <= |rest| ==> ([x] + rest)[k] == rest[k - 1]
  {
  }

  /** Reporting the longest match at `from` in front of a scan resumed at
      its end keeps both halves of the scan's promise. */
  lemma ScanTake(s: string, from: nat, e: nat, rest: seq<Span>)
    requires IsMatch(s, from, e) && forall e': nat :: IsMatch(s, from, e') ==> e' <= e
    requires LongestInOrder(s, rest, e) && SkipsNoMatch(s, rest, e)
    ensures LongestInOrder(s, [Span(from, e)] + rest, from)
    ensures SkipsNoMatch(s, [Span(from, e)] + rest, from)
  {
    var spans := [Span(from, e)] + rest;
    forall k | 0 <= k < |spans|
      ensures ResumeAt(spans, from, k) <= spans[k].start && IsMatch(s, spans[k].start, spans[k].end)
      ensures forall e': nat :: IsMatch(s, spans[k].start, e') ==> e' <= spans[k].end
    {
      if k > 0 {
        ConsSpan(s, Span(from, e), rest, k);
      }
    }
    forall k, p | 0 <= k <= |spans| && ResumeAt(spans, from, k) <= p < NextStart(s, spans, k)
      ensures NoMatchAt(s, p)
    {
      assert k != 0;
      ConsSpan(s, Span(from, e), rest, k);
    }
  }

  /** Stepping over a position where no match starts keeps the promise. */
  lemma ScanStep(s: string, from: nat, spans: seq<Span>)
    requires NoMatchAt(s, from)
    requires LongestInOrder(s, spans, from + 1) && SkipsNoMatch(s, spans, from + 1)
    ensures LongestInOrder(s, spans, from) && SkipsNoMatch(s, spans, from)
  {
    forall k, p | 0 <= k <= |spans| && ResumeAt(spans, from, k) <= p < NextStart(s, spans, k)
      ensures NoMatchAt(s, p)
    {
      if k > 0 || p > from {
        assert ResumeAt(spans, from + 1, k) <= p;
      }
    }
  }

  /** The matches `re.findall` reports from position `from` on: scanning left
      to right, a match found at a position is taken whole and the scan
      resumes at its end; otherwise the scan moves one character on.
      Each reported match is the longest at its start, the matches are in
      page order without overlap, and no match starts anywhere the scan
      stepped over. */
  function Scan(s: string, from: nat): (spans: seq<Span>)
    requires from <= |s|
    ensures LongestInOrder(s, spans, from)
    ensures SkipsNoMatch(s, spans, from)
    decreases |s| - from
  {
    if from == |s| then []
    else
      match MatchAt(s, from)
      case Some(e) =>
        var rest := Scan(s, e);
        ScanTake(s, from, e, rest);
        [Span(from, e)] + rest
      case None =>
        var spans := Scan(s, from + 1);
        ScanStep(s, from, spans);
        spans
  }

  /** `re.findall` over the whole page: the matched texts, in page order. */
  function FindAll(page: string): (tokens: seq<string>)
    ensures |tokens| == |Scan(page, 0)|
    ensures forall k :: 0 <= k < |tokens| ==>
              tokens[k] == page[Scan(page, 0)[k].start..Scan(page, 0)[k].end]
    ensures forall k :: 0 <= k < |tokens| ==> IsToken(tokens[k])
  {
    var spans := Scan(page, 0);
    seq(|spans|, k requires 0 <= k < |spans| => page[spans[k].start..spans[k].end])
  }

  /** `token[1:-1]`: the token without its first and last character. */
  function Strip(token: string): (name: string)
    ensures |token| >= 2 ==> [token[0]] + name + [token[|token| - 1]] == token
    ensures |token| < 2 ==> name == []
  {
    if |token| >= 2 then token[1..|token| - 1] else []
  }

  /** The remote archive suffix the local name drops `.gz` from. */
  const GzipSuffix: string := ".txt.gz"

  /** `gzip_name.replace(".txt.gz", ".txt")` on the stripped token. */
  function LocalName(token: string): string {
    ReplaceAll(Strip(token), GzipSuffix, ".txt")
  }

  /** `s` ends with `suffix`. */
  predicate EndsWith(s: string, suffix: string) {
    |suffix| <= |s| && s[|s| - |suffix|..] == suffix
  }

  /** A stripped token is a non-empty run of name characters followed by
      `<any>txt<any>gz`. */
  lemma StrippedToken(token: string)
    requires IsToken(token)
    ensures var name := Strip(token);
            && |name| >= 8
            && (forall k :: 0 <= k < |name| - 7 ==> IsNameChar(name[k]))
            && IsAnyChar(name[|name| - 7]) && name[|name| - 6..|name| - 3] == "txt"
            && IsAnyChar(name[|name| - 3]) && name[|name| - 2..] == "gz"
  {
    var name := Strip(token);
    assert forall k :: 0 <= k < |name| ==> name[k] == token[k + 1];
  }

  /** No `.` before the last seven characters of `name`. */
  predicate DotFreeHead(name: string) {
    |name| >= 7 && forall k :: 0 <= k < |name| - 7 ==> name[k] != '.'
  }

  /** With no `.` before its last seven characters, a name ending in
      `.txt.gz` loses just its `.gz` in the replacement. */
  lemma ReplaceGzipSuffix(name: string)
    requires DotFreeHead(name) && EndsWith(name, GzipSuffix)
    ensures ReplaceAll(name, GzipSuffix, ".txt") == name[..|name| - 3]
  {
    var n := |name|;
    var a := name[..n - 7];
    assert name == a + name[n - 7..];
    assert name[..n - 3] == a + name[n - 7..n - 3];
    assert name[n - 7..n - 3] == GzipSuffix[..4] == ".txt";
    forall k | 0 <= k < |a|
      ensures a[k] != GzipSuffix[0]
    {
      assert a[k] == name[k];
    }
    ReplaceSuffix(a, GzipSuffix, ".txt");
  }

  /** With no `.` before its last seven characters, a name not ending in
      `.txt.gz` contains no `.txt.gz` and is left as it is. */
  lemma ReplaceNoGzipSuffix(name: string)
    requires DotFreeHead(name) && !EndsWith(name, GzipSuffix)
    ensures ReplaceAll(name, GzipSuffix, ".txt") == name
  {
    var n := |name|;
    forall p: nat
      ensures !OccursAt(name, GzipSuffix, p)
    {
      if p < n - 7 {
        assert name[p] != '.';
      } else if p == n - 7 {
        assert name[n - 7..] == name[n - 7..n];
      }
    }
    ReplaceAbsent(name, GzipSuffix, ".txt");
  }

  /** The local name of a token: when the stripped name ends in `.txt.gz`
      it loses its trailing `.gz` and nothing else; otherwise (a token whose
      wildcards matched something other than `.`) it is the stripped name
      unchanged. */
  lemma LocalNameOfToken(token: string)
    requires IsToken(token)
    ensures var name := Strip(token);
            && (EndsWith(name, GzipSuffix) ==> LocalName(token) == name[..|name| - 3])
            && (!EndsWith(name, GzipSuffix) ==> LocalName(token) == name)
  {
    var name := Strip(token);
    StrippedToken(token);
    // Only a wildcard can be a `.`, so `.txt.gz` can only occur as the suffix.
    assert DotFreeHead(name);
    if EndsWith(name, GzipSuffix) {
      ReplaceGzipSuffix(name);
    } else {
      ReplaceNoGzipSuffix(name);
    }
  }
}
