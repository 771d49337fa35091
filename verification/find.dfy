/**
 * Plain-text find (`find.rs`): forward and backward search with case
 * folding, whole-word filtering and wrap-around, collection of all
 * matches, and the result set.  Offsets are byte offsets, with one `char`
 * standing for one byte (exact for ASCII); case folding is ASCII
 * lower-casing.
 */
module Find {
  import opened Wrappers
  import opened TextUtil

  datatype SearchOptions = SearchOptions(
    query: string,
    replace: string,
    caseSensitive: bool,
    wholeWord: bool,
    regex: bool,
    wrapAround: bool,
    searchBackward: bool)

  /** `SearchOptions::default`: everything off except wrap-around. */
  function DefaultOptions(): (o: SearchOptions)
    ensures o.query == [] && o.replace == [] && o.wrapAround
    ensures !o.caseSensitive && !o.wholeWord && !o.regex && !o.searchBackward
  {
    SearchOptions([], [], false, false, false, true, false)
  }

  datatype SearchResult = SearchResult(start: nat, end: nat, matchedText: string)

  datatype SearchResultSet = SearchResultSet(results: seq<SearchResult>, totalCount: nat, currentIndex: Option<nat>)

  /** `SearchResultSet::from_results`. */
  function FromResults(results: seq<SearchResult>): (s: SearchResultSet)
    ensures s.results == results && s.totalCount == |results| && s.currentIndex.None?
  {
    SearchResultSet(results, |results|, None)
  }

  /** `SearchResultSet::current`: the result at the current index, if that index is in range. */
  function Current(s: SearchResultSet): (r: Option<SearchResult>)
    ensures r.Some? <==> s.currentIndex.Some? && s.currentIndex.value < |s.results|
    ensures r.Some? ==> r.value == s.results[s.currentIndex.value]
  {
    match s.currentIndex
    case None => None
    case Some(i) => if i < |s.results| then Some(s.results[i]) else None
  }

  function SetCurrent(s: SearchResultSet, index: Option<nat>): (r: SearchResultSet)
    ensures r.currentIndex == index && r.results == s.results && r.totalCount == s.totalCount
  {
    s.(currentIndex := index)
  }

  // ---------------------------------------------------------------
  // Word boundaries and pattern escaping
  // ---------------------------------------------------------------

  /**
   * `is_word_char`: alphanumeric, `_`, or any non-whitespace character
   * other than CR, LF and TAB.  Alphanumerics and `_` are never
   * whitespace, and CR, LF and TAB are, so this is "not whitespace".
   */
  predicate IsWordChar(c: char)
  {
    !IsWhitespace(c)
  }

  /** `is_word_boundary`: always at either end; inside, where word-ness changes. */
  predicate IsWordBoundary(text: string, offset: nat)
  {
    offset == 0 || offset >= |text| || (IsWordChar(text[offset - 1]) != IsWordChar(text[offset]))
  }

  lemma WordBoundaryExamples()
    ensures IsWordBoundary("hello", 0) && IsWordBoundary("hello", 5)
    ensures !IsWordBoundary("hello", 2) && IsWordBoundary("hello world", 5)
  {
    assert "hello world"[5] == ' ';
  }

  predicate IsRegexSpecial(c: char)
  {
    c == '[' || c == ']' || c == '(' || c == ')' || c == '.' || c == '*' || c == '+' || c == '?' ||
    c == '^' || c == '$' || c == '|' || c == '\\' || c == '{' || c == '}' || c == '"' || c == '\''
  }

  function EscapeChar(c: char): string
  {
    if IsRegexSpecial(c) then ['\\', c] else [c]
  }

  /** `escape_regex_pattern`: a backslash before each special character. */
  function EscapeRegexPattern(q: string): (r: string)
    ensures |r| >= |q|
    ensures q == [] ==> r == []
    ensures q != [] ==> r == EscapeChar(q[0]) + EscapeRegexPattern(q[1..])
  {
    if |q| == 0 then [] else EscapeChar(q[0]) + EscapeRegexPattern(q[1..])
  }

  /** Reading an escaped pattern back: a backslash takes the next character literally. */
  function UnescapePattern(r: string): string
  {
    if |r| == 0 then []
    else if r[0] == '\\' && |r| >= 2 then [r[1]] + UnescapePattern(r[2..])
    else [r[0]] + UnescapePattern(r[1..])
  }

  /** Escaping loses nothing: unescaping gives back the query. */
  lemma {:induction false} EscapeRoundTrip(q: string)
    ensures UnescapePattern(EscapeRegexPattern(q)) == q
  {
    if |q| > 0 {
      var rest := EscapeRegexPattern(q[1..]);
      EscapeRoundTrip(q[1..]);
      if IsRegexSpecial(q[0]) {
        assert (['\\', q[0]] + rest)[2..] == rest;
      } else {
        assert q[0] != '\\';
        assert ([q[0]] + rest)[1..] == rest;
      }
      assert q == [q[0]] + q[1..];
    }
  }

  /** In the escaped pattern, every special character is preceded by a backslash. */
  lemma {:induction false} EscapedSpecialsArePreceded(q: string, i: nat)
    requires i < |q| && IsRegexSpecial(q[i])
    ensures exists j :: 1 <= j < |EscapeRegexPattern(q)| &&
              EscapeRegexPattern(q)[j - 1] == '\\' && EscapeRegexPattern(q)[j] == q[i]
  {
    var r := EscapeRegexPattern(q);
    if i == 0 {
      assert r[0] == '\\' && r[1] == q[0];
    } else {
      EscapedSpecialsArePreceded(q[1..], i - 1);
      var rest := EscapeRegexPattern(q[1..]);
      var j :| 1 <= j < |rest| && rest[j - 1] == '\\' && rest[j] == q[1..][i - 1];
      var k := |EscapeChar(q[0])|;
      assert r[k + j - 1] == rest[j - 1] && r[k + j] == rest[j];
    }
  }

  // ---------------------------------------------------------------
  // `str::find` and `str::rfind`
  // ---------------------------------------------------------------

  /** `text[from..].find(q)`, as an absolute offset: the first occurrence at or after `from`. */
  function FindFirst(text: string, q: string, from: nat): (r: Option<nat>)
    requires from <= |text|
    ensures r.Some? ==> from <= r.value && OccursAt(text, q, r.value)
    decreases |text| - from
  {
    if from + |q| > |text| then None
    else if OccursAt(text, q, from) then Some(from)
    else FindFirst(text, q, from + 1)
  }

  /** `FindFirst` misses nothing: no occurrence lies between `from` and its answer. */
  lemma {:induction false} FindFirstIsFirst(text: string, q: string, from: nat)
    requires from <= |text|
    ensures var r := FindFirst(text, q, from);
            (r.Some? ==> forall k: nat :: from <= k < r.value ==> !OccursAt(text, q, k)) &&
            (r.None? ==> forall k: nat :: from <= k ==> !OccursAt(text, q, k))
    decreases |text| - from
  {
    if from + |q| <= |text| && !OccursAt(text, q, from) {
      FindFirstIsFirst(text, q, from + 1);
    }
  }

  /** `text[..end].rfind(q)`: the last occurrence lying entirely before `end`. */
  function FindLast(text: string, q: string, end: nat): (r: Option<nat>)
    requires end <= |text|
    ensures r.Some? ==> r.value + |q| <= end && OccursAt(text, q, r.value)
  {
    if end < |q| then None
    else if OccursAt(text, q, end - |q|) then Some(end - |q|)
    else FindLast(text, q, end - 1)
  }

  /** `FindLast` misses nothing: no occurrence before `end` lies after its answer. */
  lemma {:induction false} FindLastIsLast(text: string, q: string, end: nat)
    requires end <= |text|
    ensures var r := FindLast(text, q, end);
            (r.Some? ==> forall k: nat :: r.value < k && k + |q| <= end ==> !OccursAt(text, q, k)) &&
            (r.None? ==> forall k: nat :: k + |q| <= end ==> !OccursAt(text, q, k))
  {
    if end >= |q| && !OccursAt(text, q, end - |q|) {
      FindLastIsLast(text, q, end - 1);
    }
  }

  // ---------------------------------------------------------------
  // `simple_search`
  // ---------------------------------------------------------------

  function Fold(s: string, caseSensitive: bool): (r: string)
    ensures |r| == |s|
  {
    if caseSensitive then s else ToLower(s)
  }

  /** The hit of length `n` at `p`, reported with the original (unfolded) text. */
  function Hit(text: string, n: nat, p: nat): SearchResult
    requires p + n <= |text|
  {
    SearchResult(p, p + n, text[p..p + n])
  }

  /**
   * The forward branch of `simple_search`, looking for the folded query
   * `sq` in the folded text `st` and reporting hits in `text`.
   */
  function SearchForward(text: string, st: string, sq: string, from: nat, ww: bool, wrap: bool)
    : (r: Option<SearchResult>)
    requires |sq| > 0 && |st| == |text|
    ensures r.Some? ==> r.value.end == r.value.start + |sq| <= |text|
    ensures r.Some? ==> r.value.matchedText == text[r.value.start..r.value.end]
    ensures r.Some? ==> OccursAt(st, sq, r.value.start)
    ensures r.Some? && ww ==> IsWordBoundary(text, r.value.start)
    ensures r.Some? && !wrap ==> r.value.start >= from
    decreases if wrap then 1 else 0, |text| - (if from < |text| then from else |text|)
  {
    var start := if from < |text| then from else |text|;
    match FindFirst(st, sq, start)
    case Some(p) =>
      if ww && !IsWordBoundary(text, p) then SearchForward(text, st, sq, p + 1, ww, false)
      else Some(Hit(text, |sq|, p))
    case None =>
      if wrap && from > 0 then SearchForward(text, st, sq, 0, ww, false) else None
  }

  /**
   * The backward loop of `simple_search` as evidently intended: take the
   * last occurrence lying before `end`; when whole words are asked for and
   * it does not start on a boundary, look again for an occurrence starting
   * before it.
   */
  function SearchBackwardFrom(text: string, st: string, sq: string, end: nat, ww: bool): (r: Option<SearchResult>)
    requires |sq| > 0 && |st| == |text| && end <= |text|
    ensures r.Some? ==> r.value.end == r.value.start + |sq| <= end
    ensures r.Some? ==> r.value.matchedText == text[r.value.start..r.value.end]
    ensures r.Some? ==> OccursAt(st, sq, r.value.start)
    ensures r.Some? && ww ==> IsWordBoundary(text, r.value.start)
    decreases end
  {
    match FindLast(st, sq, end)
    case None => None
    case Some(p) =>
      if ww && !IsWordBoundary(text, p) then
        if p == 0 then None else SearchBackwardFrom(text, st, sq, p + |sq| - 1, ww)
      else Some(Hit(text, |sq|, p))
  }

  /** An eligible occurrence: entirely before `end`, and on a word boundary when whole words are asked for. */
  predicate Eligible(text: string, st: string, sq: string, end: nat, ww: bool, k: nat)
  {
    k + |sq| <= end && (ww ==> IsWordBoundary(text, k)) && OccursAt(st, sq, k)
  }

  /** The backward search finds the last eligible occurrence, and finds one whenever there is one. */
  lemma {:induction false} SearchBackwardFromIsLast(text: string, st: string, sq: string, end: nat, ww: bool)
    requires |sq| > 0 && |st| == |text| && end <= |text|
    ensures var r := SearchBackwardFrom(text, st, sq, end, ww);
            (r.Some? ==> forall k: nat :: r.value.start < k ==> !Eligible(text, st, sq, end, ww, k)) &&
            (r.None? ==> forall k: nat :: !Eligible(text, st, sq, end, ww, k))
    decreases end
  {
    var last := FindLast(st, sq, end);
    FindLastIsLast(st, sq, end);
    if last.Some? && ww && !IsWordBoundary(text, last.value) {
      var end' := last.value + |sq| - 1;
      SearchBackwardFromIsLast(text, st, sq, end', ww);
      SkippedHitIsNotEligible(text, st, sq, end, ww, last.value);
    }
  }

  /** After skipping the non-boundary hit at `p`, the eligible occurrences are those before `p + |sq| - 1`. */
  lemma SkippedHitIsNotEligible(text: string, st: string, sq: string, end: nat, ww: bool, p: nat)
    requires |sq| > 0 && p + |sq| <= end
    requires forall k: nat :: p < k && k + |sq| <= end ==> !OccursAt(st, sq, k)
    requires ww && !IsWordBoundary(text, p)
    ensures forall k: nat :: Eligible(text, st, sq, end, ww, k) ==> Eligible(text, st, sq, p + |sq| - 1, ww, k)
  {
    forall k: nat | Eligible(text, st, sq, end, ww, k) ensures k < p {
      assert k != p;
    }
  }

  /** The backward branch of `simple_search`; it slices `text[..from]`, so `from` must be in range. */
  function SearchBackward(text: string, st: string, sq: string, from: nat, ww: bool, wrap: bool)
    : (r: Option<SearchResult>)
    requires |sq| > 0 && |st| == |text| && from <= |text|
    ensures r.Some? ==> r.value.end == r.value.start + |sq| <= |text|
    ensures r.Some? ==> r.value.matchedText == text[r.value.start..r.value.end]
    ensures r.Some? && !wrap ==> r.value.end <= from
    ensures from == 0 ==> r.None?
    decreases if wrap then 1 else 0
  {
    var found := if from == 0 then None else SearchBackwardFrom(text, st, sq, from, ww);
    if found.None? && wrap && from > 0 then SearchBackward(text, st, sq, |text|, ww, false)
    else found
  }

  /** `simple_search`. */
  function SimpleSearch(text: string, q: string, from: nat, cs: bool, ww: bool, wrap: bool, backward: bool)
    : (r: Option<SearchResult>)
    requires backward ==> from <= |text|
    ensures q == [] || text == [] ==> r.None?
    ensures r.Some? ==> r.value.end == r.value.start + |q| <= |text|
    ensures r.Some? ==> r.value.matchedText == text[r.value.start..r.value.end]
  {
    if |q| == 0 || |text| == 0 then None
    else if backward then SearchBackward(text, Fold(text, cs), Fold(q, cs), from, ww, wrap)
    else SearchForward(text, Fold(text, cs), Fold(q, cs), from, ww, wrap)
  }

  /** `search` without the regular-expression path. */
  function Search(text: string, o: SearchOptions, from: nat): (r: Option<SearchResult>)
    requires !o.regex
    requires o.searchBackward ==> from <= |text|
    ensures o.query == [] || text == [] ==> r.None?
    ensures r.Some? ==> r.value.end == r.value.start + |o.query| <= |text|
    ensures r.Some? ==> r.value.matchedText == text[r.value.start..r.value.end]
  {
    if |o.query| == 0 || |text| == 0 then None
    else SimpleSearch(text, o.query, from, o.caseSensitive, o.wholeWord, o.wrapAround, o.searchBackward)
  }

  /**
   * A forward, case-sensitive, non-wrapping search finds an occurrence
   * exactly when there is one at or after `from`, and it finds the first.
   */
  lemma ForwardFindsFirst(text: string, q: string, from: nat)
    requires |q| > 0 && |text| > 0 && from <= |text|
    ensures var r := SimpleSearch(text, q, from, true, false, false, false);
            (r.Some? <==> exists k :: from <= k <= |text| && OccursAt(text, q, k)) &&
            (r.Some? ==> r.value.start >= from && OccursAt(text, q, r.value.start) &&
                         forall k :: from <= k < r.value.start ==> !OccursAt(text, q, k))
  {
    var r := SimpleSearch(text, q, from, true, false, false, false);
    FindFirstIsFirst(text, q, from);
    if r.Some? {
      assert from <= r.value.start <= |text|;
    }
  }

  /** With wrap-around and nothing at or after `from`, a forward search returns the first occurrence in the text. */
  lemma ForwardWrapsToFirst(text: string, q: string, from: nat, cs: bool)
    requires |q| > 0 && |text| > 0 && 0 < from <= |text|
    requires forall k :: from <= k <= |text| ==> !OccursAt(Fold(text, cs), Fold(q, cs), k)
    ensures SimpleSearch(text, q, from, cs, false, true, false) == SimpleSearch(text, q, 0, cs, false, false, false)
  {
    var r := FindFirst(Fold(text, cs), Fold(q, cs), from);
    assert r.None?;
  }

  /**
   * Without wrap-around, a forward search finds the first eligible
   * occurrence at or after `from`, whatever the case folding and the
   * whole-word setting, and finds nothing only when there is none.
   */
  lemma {:induction false} SearchForwardIsFirst(text: string, st: string, sq: string, from: nat, ww: bool)
    requires |sq| > 0 && |st| == |text|
    ensures var r := SearchForward(text, st, sq, from, ww, false);
            (r.Some? ==> forall k: nat :: from <= k < r.value.start ==> !Eligible(text, st, sq, |text|, ww, k)) &&
            (r.None? ==> forall k: nat :: from <= k ==> !Eligible(text, st, sq, |text|, ww, k))
    decreases |text| - (if from < |text| then from else |text|)
  {
    var start := if from < |text| then from else |text|;
    FindFirstIsFirst(st, sq, start);
    var f := FindFirst(st, sq, start);
    if f.None? {
      assert SearchForward(text, st, sq, from, ww, false).None?;
      forall k: nat | from <= k ensures !Eligible(text, st, sq, |text|, ww, k) {
        assert start <= k;
      }
    } else if ww && !IsWordBoundary(text, f.value) {
      var p := f.value;
      SearchForwardIsFirst(text, st, sq, p + 1, ww);
      assert SearchForward(text, st, sq, from, ww, false) == SearchForward(text, st, sq, p + 1, ww, false);
      NoEligibleBefore(text, st, sq, from, start, p, ww);
    } else {
      assert SearchForward(text, st, sq, from, ww, false) == Some(Hit(text, |sq|, f.value));
      forall k: nat | from <= k < f.value ensures !Eligible(text, st, sq, |text|, ww, k) {
        assert start <= k;
      }
    }
  }

  /** Below the first occurrence at or after `start`, and at a rejected one, nothing is eligible. */
  lemma NoEligibleBefore(text: string, st: string, sq: string, from: nat, start: nat, p: nat, ww: bool)
    requires start <= from
    requires forall k: nat :: start <= k < p ==> !OccursAt(st, sq, k)
    requires ww && !IsWordBoundary(text, p)
    ensures forall k: nat :: from <= k <= p ==> !Eligible(text, st, sq, |text|, ww, k)
  {
  }

  // ---------------------------------------------------------------
  // `find_all_in_text`
  // ---------------------------------------------------------------

  /** The result ranges are in increasing order and do not overlap. */
  predicate Ordered(rs: seq<SearchResult>)
  {
    (forall i :: 0 <= i < |rs| ==> rs[i].start < rs[i].end) &&
    (forall i, j :: 0 <= i < j < |rs| ==> rs[i].end <= rs[j].start)
  }

  /** `r` is a match of the query in the text, reported with the original bytes. */
  predicate IsMatch(text: string, o: SearchOptions, r: SearchResult)
  {
    r.end == r.start + |o.query| <= |text| &&
    r.matchedText == text[r.start..r.end] &&
    OccursAt(Fold(text, o.caseSensitive), Fold(o.query, o.caseSensitive), r.start) &&
    (o.wholeWord ==> IsWordBoundary(text, r.start))
  }

  /** One search step of the loop below: forward, no wrapping, from inside the text. */
  lemma SearchOnceFacts(text: string, o: SearchOptions, pos: nat)
    requires !o.regex && |o.query| > 0 && |text| > 0 && pos <= |text|
    requires o.searchBackward ==> pos == 0
    ensures o.searchBackward ==> Search(text, o.(wrapAround := false), pos).None?
    ensures var r := Search(text, o.(wrapAround := false), pos);
            r.Some? ==> r.value.start >= pos && IsMatch(text, o, r.value)
    ensures var r := Search(text, o.(wrapAround := false), pos);
            var st := Fold(text, o.caseSensitive);
            var sq := Fold(o.query, o.caseSensitive);
            !o.searchBackward ==>
              (r.Some? ==> forall k: nat :: pos <= k < r.value.start ==> !Eligible(text, st, sq, |text|, o.wholeWord, k)) &&
              (r.None? ==> forall k: nat :: pos <= k ==> !Eligible(text, st, sq, |text|, o.wholeWord, k))
  {
    var st := Fold(text, o.caseSensitive);
    var sq := Fold(o.query, o.caseSensitive);
    if !o.searchBackward {
      assert Search(text, o.(wrapAround := false), pos) == SearchForward(text, st, sq, pos, o.wholeWord, false);
      SearchForwardIsFirst(text, st, sq, pos, o.wholeWord);
    }
  }

  /**
   * `find_all_in_text` as evidently intended: repeat the search from the
   * end of the previous match until it fails, without wrapping.  A
   * backward search from 0 finds nothing, so the loop then ends at once.
   */
  method FindAllInText(text: string, o: SearchOptions) returns (s: SearchResultSet)
    requires !o.regex
    ensures s.totalCount == |s.results| && s.currentIndex.None?
    ensures o.query == [] || text == [] || o.searchBackward ==> s.results == []
    ensures Ordered(s.results)
    ensures forall i :: 0 <= i < |s.results| ==> IsMatch(text, o, s.results[i])
    ensures |o.query| > 0 && !o.searchBackward ==>
              forall k: nat :: OccursAt(Fold(text, o.caseSensitive), Fold(o.query, o.caseSensitive), k) &&
                               (o.wholeWord ==> IsWordBoundary(text, k)) ==>
                exists i :: 0 <= i < |s.results| && s.results[i].start <= k < s.results[i].end
  {
    if |o.query| == 0 || |text| == 0 {
      assert |o.query| > 0 ==> |Fold(text, o.caseSensitive)| < |Fold(o.query, o.caseSensitive)|;
      return FromResults([]);
    }
    var once := o.(wrapAround := false);
    SearchOnceFacts(text, o, 0);
    if o.searchBackward {
      assert Search(text, once, 0).None?;
      return FromResults([]);
    }
    var st := Fold(text, o.caseSensitive);
    var sq := Fold(o.query, o.caseSensitive);
    var results: seq<SearchResult> := [];
    var pos: nat := 0;
    var r := Search(text, once, pos);
    while r.Some?
      invariant pos <= |text|
      invariant Ordered(results)
      invariant forall i :: 0 <= i < |results| ==> results[i].end <= pos
      invariant forall i :: 0 <= i < |results| ==> IsMatch(text, o, results[i])
      invariant r.Some? ==> r.value.start >= pos && IsMatch(text, o, r.value)
      invariant r.Some? ==> forall k: nat :: pos <= k < r.value.start ==> !Eligible(text, st, sq, |text|, o.wholeWord, k)
      invariant r.None? ==> forall k: nat :: pos <= k ==> !Eligible(text, st, sq, |text|, o.wholeWord, k)
      invariant forall k: nat :: k < pos && Eligible(text, st, sq, |text|, o.wholeWord, k) ==> Covered(results, k)
      decreases |text| - pos
    {
      CoverStep(text, st, sq, o.wholeWord, results, pos, r.value);
      AppendMatch(text, o, results, pos, r.value);
      results := results + [r.value];
      pos := r.value.end;
      SearchOnceFacts(text, o, pos);
      r := Search(text, once, pos);
    }
    CoverAll(text, st, sq, o.wholeWord, results, pos);
    s := FromResults(results);
  }

  /** One pass of the loop above: a match past every earlier one keeps the list ordered and made of matches. */
  lemma AppendMatch(text: string, o: SearchOptions, rs: seq<SearchResult>, pos: nat, r: SearchResult)
    requires Ordered(rs) && forall i :: 0 <= i < |rs| ==> rs[i].end <= pos
    requires forall i :: 0 <= i < |rs| ==> IsMatch(text, o, rs[i])
    requires r.start >= pos && IsMatch(text, o, r) && |o.query| > 0
    ensures Ordered(rs + [r]) && forall i :: 0 <= i < |rs + [r]| ==> (rs + [r])[i].end <= r.end
    ensures forall i :: 0 <= i < |rs + [r]| ==> IsMatch(text, o, (rs + [r])[i])
  {
    var rs' := rs + [r];
    forall i | 0 <= i < |rs'| ensures IsMatch(text, o, rs'[i]) && rs'[i].end <= r.end {
      if i < |rs| {
        assert rs'[i] == rs[i];
      }
    }
  }

  /** Some result's range holds offset `k`. */
  ghost predicate Covered(rs: seq<SearchResult>, k: nat)
  {
    exists i :: 0 <= i < |rs| && rs[i].start <= k < rs[i].end
  }

  /** One pass of the loop above: the new match covers every eligible occurrence up to its end. */
  lemma CoverStep(text: string, st: string, sq: string, ww: bool, rs: seq<SearchResult>, pos: nat, r: SearchResult)
    requires forall k: nat :: k < pos && Eligible(text, st, sq, |text|, ww, k) ==> Covered(rs, k)
    requires forall k: nat :: pos <= k < r.start ==> !Eligible(text, st, sq, |text|, ww, k)
    ensures forall k: nat :: k < r.end && Eligible(text, st, sq, |text|, ww, k) ==> Covered(rs + [r], k)
  {
    forall k: nat | k < r.end && Eligible(text, st, sq, |text|, ww, k) ensures Covered(rs + [r], k) {
      if k < pos {
        var i :| 0 <= i < |rs| && rs[i].start <= k < rs[i].end;
        assert (rs + [r])[i] == rs[i];
      } else {
        assert (rs + [r])[|rs|] == r;
      }
    }
  }

  /** When the loop stops, every occurrence eligible anywhere in the text is covered. */
  lemma CoverAll(text: string, st: string, sq: string, ww: bool, rs: seq<SearchResult>, pos: nat)
    requires |st| == |text|
    requires forall k: nat :: k < pos && Eligible(text, st, sq, |text|, ww, k) ==> Covered(rs, k)
    requires forall k: nat :: pos <= k ==> !Eligible(text, st, sq, |text|, ww, k)
    ensures forall k: nat :: OccursAt(st, sq, k) && (ww ==> IsWordBoundary(text, k)) ==>
              exists i :: 0 <= i < |rs| && rs[i].start <= k < rs[i].end
  {
    forall k: nat | OccursAt(st, sq, k) && (ww ==> IsWordBoundary(text, k))
      ensures exists i :: 0 <= i < |rs| && rs[i].start <= k < rs[i].end
    {
      assert Eligible(text, st, sq, |text|, ww, k);
    }
  }

  // ---------------------------------------------------------------
  // The whole-word retry of the forward search
  // ---------------------------------------------------------------

  /**
   * As written, a forward whole-word search that rejects a hit retries
   * with wrap-around switched off, so an eligible occurrence before
   * `from` is never reached: a whole "b" sits at 0 in "b ab", yet the
   * wrapping search from 1 rejects the "b" at 3 and gives up.
   */
  lemma WholeWordRetryDropsWrap()
    ensures OccursAt("b ab", "b", 0) && IsWordBoundary("b ab", 0)
    ensures SimpleSearch("b ab", "b", 1, true, true, true, false).None?
  {
    assert OccursAt("b ab", "b", 3);
    assert !IsWordBoundary("b ab", 3);
    assert "b ab"[1..2][0] == ' ' && "b ab"[2..3][0] == 'a';
    assert !OccursAt("b ab", "b", 1) && !OccursAt("b ab", "b", 2);
  }

  /**
   * The forward branch of `simple_search` as evidently intended: the
   * whole-word retry keeps the caller's wrap-around setting.
   */
  function SearchForwardCorrected(text: string, st: string, sq: string, from: nat, ww: bool, wrap: bool)
    : (r: Option<SearchResult>)
    requires |sq| > 0 && |st| == |text|
    ensures r.Some? ==> r.value.end == r.value.start + |sq| <= |text|
    ensures r.Some? ==> r.value.matchedText == text[r.value.start..r.value.end]
    ensures r.Some? ==> Eligible(text, st, sq, |text|, ww, r.value.start)
    ensures r.Some? && !wrap ==> r.value.start >= from
    decreases if wrap then 1 else 0, |text| - (if from < |text| then from else |text|)
  {
    var start := if from < |text| then from else |text|;
    match FindFirst(st, sq, start)
    case Some(p) =>
      if ww && !IsWordBoundary(text, p) then SearchForwardCorrected(text, st, sq, p + 1, ww, wrap)
      else Some(Hit(text, |sq|, p))
    case None =>
      if wrap && from > 0 then SearchForwardCorrected(text, st, sq, 0, ww, false) else None
  }

  /** Without wrap-around the corrected and the as-written forward searches are the same function. */
  lemma {:induction false} SearchForwardCorrectedAgreesNoWrap(text: string, st: string, sq: string, from: nat, ww: bool)
    requires |sq| > 0 && |st| == |text|
    ensures SearchForwardCorrected(text, st, sq, from, ww, false) == SearchForward(text, st, sq, from, ww, false)
    decreases |text| - (if from < |text| then from else |text|)
  {
    var start := if from < |text| then from else |text|;
    var f := FindFirst(st, sq, start);
    if f.Some? && ww && !IsWordBoundary(text, f.value) {
      SearchForwardCorrectedAgreesNoWrap(text, st, sq, f.value + 1, ww);
    }
  }

  /** The correction matters only for a wrapping whole-word search. */
  lemma SearchForwardCorrectedAgrees(text: string, st: string, sq: string, from: nat, ww: bool, wrap: bool)
    requires |sq| > 0 && |st| == |text|
    requires !wrap || !ww
    ensures SearchForwardCorrected(text, st, sq, from, ww, wrap) == SearchForward(text, st, sq, from, ww, wrap)
  {
    SearchForwardCorrectedAgreesNoWrap(text, st, sq, 0, ww);
    if !wrap {
      SearchForwardCorrectedAgreesNoWrap(text, st, sq, from, ww);
    }
  }

  /**
   * `r` is what a wrapping forward search should give: nothing exactly
   * when no occurrence is eligible; otherwise an eligible occurrence, the
   * first at or after `from` when there is one there, and else the first
   * in the text.
   */
  ghost predicate FirstEligibleWrapping(text: string, st: string, sq: string, from: nat, ww: bool, r: Option<SearchResult>)
  {
    (r.None? <==> forall k: nat :: !Eligible(text, st, sq, |text|, ww, k)) &&
    (r.Some? ==> Eligible(text, st, sq, |text|, ww, r.value.start)) &&
    (r.Some? && from <= r.value.start ==>
       forall k: nat :: from <= k < r.value.start ==> !Eligible(text, st, sq, |text|, ww, k)) &&
    (r.Some? && r.value.start < from ==>
       (forall k: nat :: from <= k ==> !Eligible(text, st, sq, |text|, ww, k)) &&
       (forall k: nat :: k < r.value.start ==> !Eligible(text, st, sq, |text|, ww, k)))
  }

  /**
   * The corrected wrapping search finds the first eligible occurrence at
   * or after `from`; when there is none it finds the first eligible
   * occurrence from the start of the text; it finds nothing only when the
   * text holds no eligible occurrence at all.
   */
  lemma {:induction false} SearchForwardCorrectedIsFirst(text: string, st: string, sq: string, from: nat, ww: bool)
    requires |sq| > 0 && |st| == |text|
    ensures FirstEligibleWrapping(text, st, sq, from, ww, SearchForwardCorrected(text, st, sq, from, ww, true))
    decreases |text| - (if from < |text| then from else |text|), 1
  {
    var start := if from < |text| then from else |text|;
    FindFirstIsFirst(st, sq, start);
    var f := FindFirst(st, sq, start);
    var r := SearchForwardCorrected(text, st, sq, from, ww, true);
    if f.None? {
      forall k: nat | from <= k ensures !Eligible(text, st, sq, |text|, ww, k) {
        assert start <= k;
      }
      if from > 0 {
        assert r == SearchForwardCorrected(text, st, sq, 0, ww, false);
        SearchForwardCorrectedAgrees(text, st, sq, 0, ww, false);
        SearchForwardIsFirst(text, st, sq, 0, ww);
      } else {
        assert r.None?;
      }
      WrappedSearchIsFirst(text, st, sq, from, ww, r);
    } else if ww && !IsWordBoundary(text, f.value) {
      SkippedHitIsFirst(text, st, sq, from, ww, f.value);
    } else {
      assert r == Some(Hit(text, |sq|, f.value));
      forall k: nat | from <= k < f.value ensures !Eligible(text, st, sq, |text|, ww, k) {
        assert start <= k;
      }
      assert from <= f.value;
      HitSearchIsFirst(text, st, sq, from, ww, r);
    }
  }

  /** The retry branch of `SearchForwardCorrectedIsFirst`, when the first occurrence is rejected. */
  lemma {:induction false} SkippedHitIsFirst(text: string, st: string, sq: string, from: nat, ww: bool, p: nat)
    requires |sq| > 0 && |st| == |text|
    requires FindFirst(st, sq, if from < |text| then from else |text|) == Some(p)
    requires ww && !IsWordBoundary(text, p)
    ensures FirstEligibleWrapping(text, st, sq, from, ww, SearchForwardCorrected(text, st, sq, from, ww, true))
    decreases |text| - (if from < |text| then from else |text|), 0
  {
    var start := if from < |text| then from else |text|;
    var r := SearchForwardCorrected(text, st, sq, from, ww, true);
    CorrectedRetryStep(text, st, sq, from, ww, p);
    FindFirstIsFirst(st, sq, start);
    SearchForwardCorrectedIsFirst(text, st, sq, p + 1, ww);
    NoEligibleBefore(text, st, sq, from, start, p, ww);
    assert from <= p;
    SkippedSearchIsFirst(text, st, sq, from, p, ww, r);
  }

  /** A rejected whole-word hit at `p` sends the corrected search on from `p + 1`, wrapping as before. */
  lemma CorrectedRetryStep(text: string, st: string, sq: string, from: nat, ww: bool, p: nat)
    requires |sq| > 0 && |st| == |text|
    requires FindFirst(st, sq, if from < |text| then from else |text|) == Some(p)
    requires ww && !IsWordBoundary(text, p)
    ensures SearchForwardCorrected(text, st, sq, from, ww, true) == SearchForwardCorrected(text, st, sq, p + 1, ww, true)
  {
  }

  /** The wrap branch: with nothing eligible from `from` on, the first eligible occurrence of the text is the answer. */
  lemma WrappedSearchIsFirst(text: string, st: string, sq: string, from: nat, ww: bool, r: Option<SearchResult>)
    requires forall k: nat :: from <= k ==> !Eligible(text, st, sq, |text|, ww, k)
    requires r.Some? ==> Eligible(text, st, sq, |text|, ww, r.value.start)
    requires r.Some? ==> forall k: nat :: k < r.value.start ==> !Eligible(text, st, sq, |text|, ww, k)
    requires r.None? ==> forall k: nat :: !Eligible(text, st, sq, |text|, ww, k)
    ensures FirstEligibleWrapping(text, st, sq, from, ww, r)
  {
  }

  /** The retry branch: nothing eligible from `from` up to the rejected hit `p`, so the retry's answer stands. */
  lemma SkippedSearchIsFirst(text: string, st: string, sq: string, from: nat, p: nat, ww: bool, r: Option<SearchResult>)
    requires from <= p
    requires FirstEligibleWrapping(text, st, sq, p + 1, ww, r)
    requires forall k: nat :: from <= k <= p ==> !Eligible(text, st, sq, |text|, ww, k)
    ensures FirstEligibleWrapping(text, st, sq, from, ww, r)
  {
  }

  /** The hit branch: an eligible hit with nothing eligible between `from` and it is the answer. */
  lemma HitSearchIsFirst(text: string, st: string, sq: string, from: nat, ww: bool, r: Option<SearchResult>)
    requires r.Some? && from <= r.value.start && Eligible(text, st, sq, |text|, ww, r.value.start)
    requires forall k: nat :: from <= k < r.value.start ==> !Eligible(text, st, sq, |text|, ww, k)
    ensures FirstEligibleWrapping(text, st, sq, from, ww, r)
  {
  }

  /** Corrected, the wrapping whole-word search for "b" in "b ab" from 1 finds the "b" at 0. */
  lemma WholeWordRetryWrapsCorrected()
    ensures SearchForwardCorrected("b ab", "b ab", "b", 1, true, true) == Some(SearchResult(0, 1, "b"))
  {
    assert OccursAt("b ab", "b", 3);
    assert !IsWordBoundary("b ab", 3);
    assert "b ab"[1..2][0] == ' ' && "b ab"[2..3][0] == 'a';
    assert !OccursAt("b ab", "b", 1) && !OccursAt("b ab", "b", 2);
    assert OccursAt("b ab", "b", 0);
  }

  // ---------------------------------------------------------------
  // The two loops as the Rust code writes them
  // ---------------------------------------------------------------

  /** `st[lo..end].rfind(sq)`, as an absolute offset. */
  function FindLastIn(st: string, sq: string, lo: nat, end: nat): (r: Option<nat>)
    requires end <= |st|
    ensures r.Some? ==> lo <= r.value && r.value + |sq| <= end && OccursAt(st, sq, r.value)
  {
    if end < lo + |sq| then None
    else if OccursAt(st, sq, end - |sq|) then Some(end - |sq|)
    else FindLastIn(st, sq, lo, end - 1)
  }

  /** Widening the range to the left keeps the same last occurrence. */
  lemma {:induction false} FindLastInWiden(st: string, sq: string, lo: nat, lo': nat, end: nat)
    requires end <= |st| && FindLastIn(st, sq, lo, end).Some? && lo' <= FindLastIn(st, sq, lo, end).value
    ensures FindLastIn(st, sq, lo', end) == FindLastIn(st, sq, lo, end)
  {
    if !OccursAt(st, sq, end - |sq|) {
      FindLastInWiden(st, sq, lo, lo', end - 1);
    }
  }

  datatype BackwardStep = Found(result: SearchResult) | Stop | Continue(startPos: nat)

  /**
   * One pass of the backward `while` loop of `simple_search` AS WRITTEN:
   * search `[startPos, end)` for the last occurrence; a whole-word miss
   * moves the start of the range to one before the hit and goes round again.
   */
  function BackwardStepAsWritten(text: string, st: string, sq: string, startPos: nat, end: nat, ww: bool)
    : (r: BackwardStep)
    requires |sq| > 0 && |st| == |text| && end <= |text|
    ensures r.Continue? ==> r.startPos < end
  {
    if startPos >= end then Stop
    else
      match FindLastIn(st, sq, startPos, end)
      case None => Stop
      case Some(abs) =>
        if ww && !IsWordBoundary(text, abs) then
          if abs == 0 then Stop else Continue(abs - 1)
        else Found(Hit(text, |sq|, abs))
  }

  /**
   * The backward loop never leaves a whole-word miss: after one
   * `Continue`, the next pass finds the same hit and continues from the
   * same place, for ever.
   */
  lemma BackwardLoopRepeats(text: string, st: string, sq: string, startPos: nat, end: nat, ww: bool)
    requires |sq| > 0 && |st| == |text| && end <= |text|
    requires BackwardStepAsWritten(text, st, sq, startPos, end, ww).Continue?
    ensures var next := BackwardStepAsWritten(text, st, sq, startPos, end, ww).startPos;
            BackwardStepAsWritten(text, st, sq, next, end, ww) == Continue(next)
  {
    var abs := FindLastIn(st, sq, startPos, end).value;
    FindLastInWiden(st, sq, startPos, abs - 1, end);
  }

  /** Searching backward for a whole "b" in "ab" from the end loops for ever as written. */
  lemma BackwardWholeWordExample()
    ensures BackwardStepAsWritten("ab", "ab", "b", 0, 2, true) == Continue(0)
    ensures BackwardStepAsWritten("ab", "ab", "b", 0, 2, true).startPos == 0
  {
    assert OccursAt("ab", "b", 1);
    assert !IsWordBoundary("ab", 1);
  }

  /** With the evident intent, the same search reports that there is no whole-word match. */
  lemma BackwardWholeWordExampleFixed()
    ensures SimpleSearch("ab", "b", 2, true, true, false, true).None?
  {
    assert OccursAt("ab", "b", 1);
    assert !IsWordBoundary("ab", 1);
    assert !OccursAt("ab", "b", 0);
  }

  /**
   * One pass of the `while let` loop of `find_all_in_text` AS WRITTEN,
   * with the caller's options: `None` when the loop exits, otherwise the
   * match and the next search position.  A plain match always has the
   * query's non-zero length, so the loop's guard for empty matches never
   * applies and is not modelled.
   */
  function FindAllStepAsWritten(text: string, o: SearchOptions, pos: nat): (r: Option<(SearchResult, nat)>)
    requires !o.regex && !o.searchBackward
    ensures r.Some? ==> r.value.1 == r.value.0.end <= |text| && r.value.0.start < r.value.0.end
    ensures r.None? <==> Search(text, o, pos).None?
  {
    match Search(text, o, pos)
    case None => None
    case Some(res) => Some((res, res.end))
  }

  /**
   * With wrap-around on (the default), a forward plain search that finds
   * anything at all finds something from every position, so the loop of
   * `find_all_in_text` never exits.
   */
  lemma FindAllWithWrapNeverStops(text: string, o: SearchOptions, pos: nat)
    requires !o.regex && !o.searchBackward && !o.wholeWord && o.wrapAround
    requires Search(text, o, 0).Some?
    ensures FindAllStepAsWritten(text, o, pos).Some?
  {
    var st := Fold(text, o.caseSensitive);
    var sq := Fold(o.query, o.caseSensitive);
    assert Search(text, o, 0) == SearchForward(text, st, sq, 0, false, true);
    assert FindFirst(st, sq, 0).Some?;
    var start := if pos < |text| then pos else |text|;
    if FindFirst(st, sq, start).None? {
      assert pos > 0;
      assert SearchForward(text, st, sq, pos, false, true) == SearchForward(text, st, sq, 0, false, false);
    }
    assert Search(text, o, pos) == SearchForward(text, st, sq, pos, false, true);
  }

  /** Finding every "a" in "a" with the default options: the search from position 1 wraps back to the same match. */
  lemma FindAllDefaultExample()
    ensures var o := DefaultOptions().(query := "a");
            FindAllStepAsWritten("a", o, 1) == Some((SearchResult(0, 1, "a"), 1))
  {
    assert ToLower("a") == "a";
    assert OccursAt("a", "a", 0);
  }
}
