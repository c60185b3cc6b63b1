/** `src/export.rs`: every stored article is scored by the road-trip keywords of its title and
    description and the list is written out, highest score first. */
module Export {
  import opened Wrappers
  import Strings
  import Store

  /** An exported record: the `contents` columns plus the score. */
  datatype ExportItem = ExportItem(
    id: string,
    itemType: string,
    title: string,
    url: string,
    description: Option<string>,
    thumbnail: Option<string>,
    publishedAt: Option<string>,
    score: int)

  // ---------------------------------------------------------------- character classes

  const Road: char := '\U{9053}'     // 道
  const Trace: char := '\U{8DE1}'    // 跡
  const Number: char := '\U{53F7}'   // 号

  /** The regex class `[一-龠ぁ-んァ-ン]`: the kanji block up to U+9FA0, hiragana and katakana. */
  predicate IsClass(c: char)
  {
    || ('\U{4E00}' <= c <= '\U{9FA0}')
    || ('\U{3041}' <= c <= '\U{3093}')
    || ('\U{30A1}' <= c <= '\U{30F3}')
  }

  /** The regex class `\d`: ASCII and full-width decimal digits. */
  predicate IsDigit(c: char)
  {
    ('0' <= c <= '9') || ('\U{FF10}' <= c <= '\U{FF19}')
  }

  // ---------------------------------------------------------------- what the patterns match

  /** `s[i..j]` is a non-empty run of class characters. */
  ghost predicate ClassRun(s: string, i: int, j: int)
  {
    0 <= i < j <= |s| && forall k :: i <= k < j ==> IsClass(s[k])
  }

  /** `s[j]` is the character `c`. */
  ghost predicate CharAt(s: string, j: int, c: char)
  {
    0 <= j < |s| && s[j] == c
  }

  /** `s[p..k]` is a non-empty run of digits and `s[k]` is `号`. */
  ghost predicate DigitsUntil(s: string, p: int, k: int)
  {
    0 <= p < k < |s| && (forall m :: p <= m < k ==> IsDigit(s[m])) && s[k] == Number
  }

  /** `s[j + 1..k]` is a non-empty run of digits and `s[k]` is `号`. */
  ghost predicate NumberAfter(s: string, j: int, k: int)
  {
    DigitsUntil(s, j + 1, k)
  }

  /** `Regex::is_match` for `[一-龠ぁ-んァ-ン]+` followed by the character `mark`. */
  ghost predicate MatchesMarked(s: string, mark: char)
  {
    exists i, j :: ClassRun(s, i, j) && CharAt(s, j, mark)
  }

  /** `Regex::is_match` for `[一-龠ぁ-んァ-ン]+道\d+号`. */
  ghost predicate MatchesRoadNumber(s: string)
  {
    exists i, j, k :: ClassRun(s, i, j) && CharAt(s, j, Road) && NumberAfter(s, j, k)
  }

  // ---------------------------------------------------------------- scanners

  /** Some position `q` with `p <= q < n` satisfies `f`. */
  function SomeFrom(n: nat, p: nat, f: nat -> bool): bool
    decreases n - p
  {
    p < n && (f(p) || SomeFrom(n, p + 1, f))
  }

  lemma {:induction false} SomeFromIff(n: nat, p: nat, f: nat -> bool)
    ensures SomeFrom(n, p, f) <==> exists q: nat :: p <= q < n && f(q)
    decreases n - p
  {
    if p < n {
      SomeFromIff(n, p + 1, f);
      if exists q: nat :: p <= q < n && f(q) {
        var q: nat :| p <= q < n && f(q);
        assert f(p) || (p + 1 <= q < n && f(q));
      }
    }
  }

  /** A class character followed by `mark` at position `p`: the shortest match ending at `p`. */
  predicate MarkAt(s: string, mark: char, p: nat)
  {
    1 <= p < |s| && IsClass(s[p - 1]) && s[p] == mark
  }

  /** From `p` on: one or more digits and then `号`. */
  predicate DigitsThenNumber(s: string, p: nat)
    decreases |s| - p
  {
    p + 1 < |s| && IsDigit(s[p]) && (s[p + 1] == Number || DigitsThenNumber(s, p + 1))
  }

  /** A match of the road-number pattern whose `道` is at `p`. */
  predicate RoadNumberAt(s: string, p: nat)
  {
    MarkAt(s, Road, p) && DigitsThenNumber(s, p + 1)
  }

  function HasMarked(s: string, mark: char): bool
  {
    SomeFrom(|s|, 0, (q: nat) => MarkAt(s, mark, q))
  }

  function HasRoadNumber(s: string): bool
  {
    SomeFrom(|s|, 0, (q: nat) => RoadNumberAt(s, q))
  }

  lemma {:induction false} DigitsThenNumberIff(s: string, p: nat)
    ensures DigitsThenNumber(s, p) <==> exists k :: DigitsUntil(s, p, k)
    decreases |s| - p
  {
    if p + 1 < |s| {
      DigitsThenNumberIff(s, p + 1);
      if DigitsThenNumber(s, p) {
        if s[p + 1] == Number {
          assert DigitsUntil(s, p, p + 1);
        } else {
          var k :| DigitsUntil(s, p + 1, k);
          assert DigitsUntil(s, p, k);
        }
      }
      if exists k :: DigitsUntil(s, p, k) {
        var k :| DigitsUntil(s, p, k);
        assert IsDigit(s[p]);
        if k > p + 1 {
          assert DigitsUntil(s, p + 1, k);
          assert DigitsThenNumber(s, p + 1);
        } else {
          assert s[p + 1] == Number;
        }
      }
    }
  }

  /** The scanner for `[一-龠ぁ-んァ-ン]+` + `mark` says exactly what the pattern matches: a
      match with a longer run of class characters also has one with a run of one. */
  lemma HasMarkedIff(s: string, mark: char)
    ensures HasMarked(s, mark) <==> MatchesMarked(s, mark)
  {
    SomeFromIff(|s|, 0, (q: nat) => MarkAt(s, mark, q));
    if MatchesMarked(s, mark) {
      var i, j :| ClassRun(s, i, j) && CharAt(s, j, mark);
      assert IsClass(s[j - 1]);
      assert ((q: nat) => MarkAt(s, mark, q))(j);
    }
    if HasMarked(s, mark) {
      var q: nat :| 0 <= q < |s| && MarkAt(s, mark, q);
      assert ClassRun(s, q - 1, q) && CharAt(s, q, mark);
    }
  }

  /** The scanner for `[一-龠ぁ-んァ-ン]+道\d+号` says exactly what the pattern matches. */
  lemma HasRoadNumberIff(s: string)
    ensures HasRoadNumber(s) <==> MatchesRoadNumber(s)
  {
    SomeFromIff(|s|, 0, (q: nat) => RoadNumberAt(s, q));
    if MatchesRoadNumber(s) {
      var i, j, k :| ClassRun(s, i, j) && CharAt(s, j, Road) && NumberAfter(s, j, k);
      assert IsClass(s[j - 1]);
      DigitsThenNumberIff(s, j + 1);
      assert ((q: nat) => RoadNumberAt(s, q))(j);
    }
    if HasRoadNumber(s) {
      var q: nat :| 0 <= q < |s| && RoadNumberAt(s, q);
      DigitsThenNumberIff(s, q + 1);
      var k :| DigitsUntil(s, q + 1, k);
      assert ClassRun(s, q - 1, q) && CharAt(s, q, Road) && NumberAfter(s, q, k);
    }
  }

  /** Every road-number match is also a match of `[一-龠ぁ-んァ-ン]+道`. */
  lemma RoadNumberIsRoad(s: string)
    ensures MatchesRoadNumber(s) ==> MatchesMarked(s, Road)
  {
    if MatchesRoadNumber(s) {
      var i, j, k :| ClassRun(s, i, j) && CharAt(s, j, Road) && NumberAfter(s, j, k);
    }
  }

  // ---------------------------------------------------------------- calculate_score

  /** The text the patterns run on: `format!("{}, {}", title, description.unwrap_or(""))`. */
  function ScoreText(c: Store.Content): string
  {
    c.title + ", " + Description(c)
  }

  function Description(c: Store.Content): string
  {
    if c.description.Some? then c.description.value else ""
  }

  const NotFoundMarker: string := "404 Not Found"

  /** `calculate_score`: +5 for a road number (`…道12号`), +3 for a site (`…跡`), +1 for a road
      (`…道`), all on title and description; -3 when the title says "404 Not Found". A
      road number is always a road too, so the score takes only these eight values. */
  function CalculateScore(c: Store.Content): (score: int)
    ensures score == (if MatchesRoadNumber(ScoreText(c)) then 5 else 0)
                   + (if MatchesMarked(ScoreText(c), Trace) then 3 else 0)
                   + (if MatchesMarked(ScoreText(c), Road) then 1 else 0)
                   - (if Strings.Contains(c.title, NotFoundMarker) then 3 else 0)
    ensures score in {-3, -2, 0, 1, 3, 4, 6, 9}
  {
    var text := ScoreText(c);
    HasRoadNumberIff(text);
    HasMarkedIff(text, Trace);
    HasMarkedIff(text, Road);
    RoadNumberIsRoad(text);
    var s1 := if HasRoadNumber(text) then 5 else 0;
    var s2 := if HasMarked(text, Trace) then s1 + 3 else s1;
    var s3 := if HasMarked(text, Road) then s2 + 1 else s2;
    if Strings.Contains(c.title, NotFoundMarker) then s3 - 3 else s3
  }

  // ---------------------------------------------------------------- title and description

  /** Neither character of the `", "` separator can be part of a match. */
  lemma SeparatorInert()
    ensures !IsClass(',') && !IsClass(' ') && !IsDigit(',') && !IsDigit(' ')
    ensures ',' != Road && ',' != Trace && ',' != Number && ' ' != Number
  {
  }

  /** The digits-then-`号` tail read inside the title part of `t + rest`, when `rest` starts with
      a character that is neither a digit nor `号`. */
  lemma {:induction false} DigitsThenNumberInPrefix(t: string, rest: string, p: nat)
    requires |rest| > 0 && !IsDigit(rest[0]) && rest[0] != Number && p <= |t|
    ensures DigitsThenNumber(t + rest, p) <==> DigitsThenNumber(t, p)
    decreases |t| - p
  {
    var s := t + rest;
    if p + 1 < |t| {
      DigitsThenNumberInPrefix(t, rest, p + 1);
      assert s[p] == t[p] && s[p + 1] == t[p + 1];
    } else if p + 1 == |t| {
      assert s[p + 1] == rest[0];
      if DigitsThenNumber(s, p) {
        assert !DigitsThenNumber(s, p + 1);
      }
    } else {
      assert s[p] == rest[0];
    }
  }

  /** The digits-then-`号` tail read inside the description part of `pre + d`. */
  lemma {:induction false} DigitsThenNumberInSuffix(pre: string, d: string, p: nat)
    ensures DigitsThenNumber(pre + d, |pre| + p) <==> DigitsThenNumber(d, p)
    decreases |d| - p
  {
    var s := pre + d;
    if p + 1 < |d| {
      DigitsThenNumberInSuffix(pre, d, p + 1);
      assert s[|pre| + p] == d[p] && s[|pre| + p + 1] == d[p + 1];
    }
  }

  /** A shortest match in the joined text lies inside the title or inside the description. */
  lemma MarkAtJoined(t: string, d: string, mark: char, q: nat)
    requires mark != ',' && mark != ' '
    ensures var s := t + ", " + d;
      MarkAt(s, mark, q) <==>
        (q < |t| && MarkAt(t, mark, q)) || (q >= |t| + 2 && MarkAt(d, mark, q - |t| - 2))
  {
    SeparatorInert();
    var s := t + ", " + d;
    if q < |t| {
      if 1 <= q { assert s[q - 1] == t[q - 1]; }
      assert q < |s| && s[q] == t[q];
    } else if q == |t| {
      if q < |s| { assert s[q] == ','; }
    } else if q == |t| + 1 {
      assert s[q - 1] == ',';
    } else if q == |t| + 2 {
      assert s[q - 1] == ' ';
    } else if q < |s| {
      assert s[q - 1] == d[q - |t| - 3] && s[q] == d[q - |t| - 2];
    }
  }

  /** A shortest road-number match in the joined text lies inside the title or inside the
      description. */
  lemma RoadNumberAtJoined(t: string, d: string, q: nat)
    ensures var s := t + ", " + d;
      RoadNumberAt(s, q) <==>
        (q < |t| && RoadNumberAt(t, q)) || (q >= |t| + 2 && RoadNumberAt(d, q - |t| - 2))
  {
    SeparatorInert();
    var s := t + ", " + d;
    MarkAtJoined(t, d, Road, q);
    assert s == t + (", " + d);
    if q < |t| {
      DigitsThenNumberInPrefix(t, ", " + d, q + 1);
    } else if q >= |t| + 2 {
      assert s == (t + ", ") + d;
      DigitsThenNumberInSuffix(t + ", ", d, q - |t| - 2 + 1);
    }
  }

  /** A mark pattern matches the joined text exactly when it matches the title or the
      description on its own. */
  lemma MarkedJoined(t: string, d: string, mark: char)
    requires mark != ',' && mark != ' '
    ensures MatchesMarked(t + ", " + d, mark) <==> MatchesMarked(t, mark) || MatchesMarked(d, mark)
  {
    var s := t + ", " + d;
    HasMarkedIff(s, mark);
    HasMarkedIff(t, mark);
    HasMarkedIff(d, mark);
    SomeFromIff(|s|, 0, (q: nat) => MarkAt(s, mark, q));
    SomeFromIff(|t|, 0, (q: nat) => MarkAt(t, mark, q));
    SomeFromIff(|d|, 0, (q: nat) => MarkAt(d, mark, q));
    if HasMarked(s, mark) {
      var q: nat :| 0 <= q < |s| && MarkAt(s, mark, q);
      MarkAtJoined(t, d, mark, q);
      if q >= |t| + 2 {
        assert ((q': nat) => MarkAt(d, mark, q'))(q - |t| - 2);
      } else {
        assert ((q': nat) => MarkAt(t, mark, q'))(q);
      }
    }
    if HasMarked(t, mark) {
      var q: nat :| 0 <= q < |t| && MarkAt(t, mark, q);
      MarkAtJoined(t, d, mark, q);
      assert ((q': nat) => MarkAt(s, mark, q'))(q);
    }
    if HasMarked(d, mark) {
      var q: nat :| 0 <= q < |d| && MarkAt(d, mark, q);
      MarkAtJoined(t, d, mark, q + |t| + 2);
      assert ((q': nat) => MarkAt(s, mark, q'))(q + |t| + 2);
    }
  }

  /** The road-number pattern matches the joined text exactly when it matches the title or the
      description on its own. */
  lemma RoadNumberJoined(t: string, d: string)
    ensures MatchesRoadNumber(t + ", " + d) <==> MatchesRoadNumber(t) || MatchesRoadNumber(d)
  {
    var s := t + ", " + d;
    HasRoadNumberIff(s);
    HasRoadNumberIff(t);
    HasRoadNumberIff(d);
    SomeFromIff(|s|, 0, (q: nat) => RoadNumberAt(s, q));
    SomeFromIff(|t|, 0, (q: nat) => RoadNumberAt(t, q));
    SomeFromIff(|d|, 0, (q: nat) => RoadNumberAt(d, q));
    if HasRoadNumber(s) {
      var q: nat :| 0 <= q < |s| && RoadNumberAt(s, q);
      RoadNumberAtJoined(t, d, q);
      if q >= |t| + 2 {
        assert ((q': nat) => RoadNumberAt(d, q'))(q - |t| - 2);
      } else {
        assert ((q': nat) => RoadNumberAt(t, q'))(q);
      }
    }
    if HasRoadNumber(t) {
      var q: nat :| 0 <= q < |t| && RoadNumberAt(t, q);
      RoadNumberAtJoined(t, d, q);
      assert ((q': nat) => RoadNumberAt(s, q'))(q);
    }
    if HasRoadNumber(d) {
      var q: nat :| 0 <= q < |d| && RoadNumberAt(d, q);
      RoadNumberAtJoined(t, d, q + |t| + 2);
      assert ((q': nat) => RoadNumberAt(s, q'))(q + |t| + 2);
    }
  }

  /** The score is the keyword score of the title and the description taken separately (no
      match straddles the `", "` join), with the penalty read from the title alone. */
  lemma ScoreByParts(c: Store.Content)
    ensures CalculateScore(c) ==
        (if MatchesRoadNumber(c.title) || MatchesRoadNumber(Description(c)) then 5 else 0)
      + (if MatchesMarked(c.title, Trace) || MatchesMarked(Description(c), Trace) then 3 else 0)
      + (if MatchesMarked(c.title, Road) || MatchesMarked(Description(c), Road) then 1 else 0)
      - (if Strings.Contains(c.title, NotFoundMarker) then 3 else 0)
  {
    RoadNumberJoined(c.title, Description(c));
    MarkedJoined(c.title, Description(c), Trace);
    MarkedJoined(c.title, Description(c), Road);
  }

  /** A road number anywhere scores at least 6, or at least 3 on a "404 Not Found" page. */
  lemma RoadNumberScores(c: Store.Content)
    requires MatchesRoadNumber(c.title) || MatchesRoadNumber(Description(c))
    ensures CalculateScore(c) >= 6 || (Strings.Contains(c.title, NotFoundMarker) && CalculateScore(c) >= 3)
  {
    ScoreByParts(c);
    RoadNumberIsRoad(c.title);
    RoadNumberIsRoad(Description(c));
  }

  /** One class character, `道`, digits and `号` give a road-number match. */
  lemma RoadNumberShape(name: char, digits: string, rest: string)
    requires IsClass(name) && |digits| > 0 && forall m :: 0 <= m < |digits| ==> IsDigit(digits[m])
    ensures MatchesRoadNumber([name, Road] + digits + [Number] + rest)
  {
    var s := [name, Road] + digits + [Number] + rest;
    assert ClassRun(s, 0, 1) && CharAt(s, 1, Road);
    assert forall m :: 2 <= m < 2 + |digits| ==> s[m] == digits[m - 2];
    assert NumberAfter(s, 1, 2 + |digits|);
  }

  // ---------------------------------------------------------------- export order

  /** `sort_by(|a, b| b.score.partial_cmp(&a.score))`: the stable sort by descending score,
      written as insertion of each item after every earlier one whose score is not lower. */
  function SortByScore(items: seq<ExportItem>): seq<ExportItem>
  {
    if items == [] then [] else InsertByScore(SortByScore(items[..|items| - 1]), items[|items| - 1])
  }

  function InsertByScore(sorted: seq<ExportItem>, x: ExportItem): seq<ExportItem>
  {
    if sorted == [] then [x]
    else if sorted[0].score >= x.score then [sorted[0]] + InsertByScore(sorted[1..], x)
    else [x] + sorted
  }

  ghost predicate ScoreDescending(s: seq<ExportItem>)
  {
    forall i, j :: 0 <= i < j < |s| ==> s[i].score >= s[j].score
  }

  /** The items of `s` with score `v`, in order. */
  function WithScore(s: seq<ExportItem>, v: int): seq<ExportItem>
  {
    if s == [] then []
    else (if s[0].score == v then [s[0]] else []) + WithScore(s[1..], v)
  }

  /** Inserting adds exactly the one item. */
  lemma {:induction false} InsertByScorePermutes(sorted: seq<ExportItem>, x: ExportItem)
    ensures multiset(InsertByScore(sorted, x)) == multiset(sorted) + multiset{x}
  {
    if sorted != [] && sorted[0].score >= x.score {
      InsertByScorePermutes(sorted[1..], x);
      assert sorted == [sorted[0]] + sorted[1..];
    }
  }

  /** Inserting into a list whose scores are at most `b` an item scoring at most `b`. */
  lemma {:induction false} InsertByScoreBounded(sorted: seq<ExportItem>, x: ExportItem, b: int)
    requires forall k :: 0 <= k < |sorted| ==> sorted[k].score <= b
    requires x.score <= b
    ensures forall k :: 0 <= k < |InsertByScore(sorted, x)| ==> InsertByScore(sorted, x)[k].score <= b
  {
    if sorted != [] && sorted[0].score >= x.score {
      InsertByScoreBounded(sorted[1..], x, b);
    }
  }

  /** Inserting keeps the list in descending order of score. */
  lemma {:induction false} InsertByScoreDescending(sorted: seq<ExportItem>, x: ExportItem)
    requires ScoreDescending(sorted)
    ensures ScoreDescending(InsertByScore(sorted, x))
  {
    if sorted != [] && sorted[0].score >= x.score {
      var tail := sorted[1..];
      InsertByScoreDescending(tail, x);
      InsertByScoreBounded(tail, x, sorted[0].score);
      var r := InsertByScore(sorted, x);
      assert r == [sorted[0]] + InsertByScore(tail, x);
    }
  }

  /** The inserted item goes after every item of its own score. */
  lemma {:induction false} InsertByScoreWithScore(sorted: seq<ExportItem>, x: ExportItem, v: int)
    requires ScoreDescending(sorted)
    ensures WithScore(InsertByScore(sorted, x), v) == WithScore(sorted, v) + (if x.score == v then [x] else [])
  {
    if sorted == [] {
      WithScoreCons(x, [], v);
    } else if sorted[0].score >= x.score {
      var tail := sorted[1..];
      assert ScoreDescending(tail);
      InsertByScoreWithScore(tail, x, v);
      WithScoreCons(sorted[0], InsertByScore(tail, x), v);
      WithScoreCons(sorted[0], tail, v);
      assert sorted == [sorted[0]] + tail;
    } else {
      WithScoreCons(x, sorted, v);
      if x.score == v {
        NoneWithScore(sorted, v);
      }
    }
  }

  lemma WithScoreCons(a: ExportItem, rest: seq<ExportItem>, v: int)
    ensures WithScore([a] + rest, v) == (if a.score == v then [a] else []) + WithScore(rest, v)
  {
    assert ([a] + rest)[1..] == rest;
  }

  /** A descending list whose head scores below `v` holds no item of score `v`. */
  lemma {:induction false} NoneWithScore(s: seq<ExportItem>, v: int)
    requires ScoreDescending(s) && (s == [] || s[0].score < v)
    ensures WithScore(s, v) == []
  {
    if s != [] {
      assert ScoreDescending(s[1..]);
      if |s| > 1 { assert s[1].score <= s[0].score; }
      NoneWithScore(s[1..], v);
    }
  }

  /** `WithScore` of a concatenation. */
  lemma {:induction false} WithScoreAppend(s: seq<ExportItem>, t: seq<ExportItem>, v: int)
    ensures WithScore(s + t, v) == WithScore(s, v) + WithScore(t, v)
  {
    if s != [] {
      assert (s + t)[1..] == s[1..] + t;
      WithScoreAppend(s[1..], t, v);
    } else {
      assert s + t == t;
    }
  }

  /** The export order is highest score first. */
  lemma {:induction false} SortByScoreDescending(items: seq<ExportItem>)
    ensures ScoreDescending(SortByScore(items))
  {
    if items != [] {
      SortByScoreDescending(items[..|items| - 1]);
      InsertByScoreDescending(SortByScore(items[..|items| - 1]), items[|items| - 1]);
    }
  }

  /** The export holds the same items as its input. */
  lemma {:induction false} SortByScorePermutes(items: seq<ExportItem>)
    ensures multiset(SortByScore(items)) == multiset(items)
  {
    if items != [] {
      var init := items[..|items| - 1];
      SortByScorePermutes(init);
      InsertByScorePermutes(SortByScore(init), items[|items| - 1]);
      assert items == init + [items[|items| - 1]];
    }
  }

  /** The sort is stable: the items of each score keep the order they were listed in. */
  lemma {:induction false} SortByScoreStable(items: seq<ExportItem>, v: int)
    ensures WithScore(SortByScore(items), v) == WithScore(items, v)
  {
    if items != [] {
      var init := items[..|items| - 1];
      var x := items[|items| - 1];
      SortByScoreStable(init, v);
      SortByScoreDescending(init);
      InsertByScoreWithScore(SortByScore(init), x, v);
      WithScoreLast(items, v);
    }
  }

  /** `WithScore` of a non-empty list, split at its last item. */
  lemma WithScoreLast(items: seq<ExportItem>, v: int)
    requires items != []
    ensures var x := items[|items| - 1];
      WithScore(items, v) == WithScore(items[..|items| - 1], v) + (if x.score == v then [x] else [])
  {
    var init := items[..|items| - 1];
    var x := items[|items| - 1];
    assert items == init + [x];
    WithScoreAppend(init, [x], v);
    WithScoreCons(x, [], v);
    assert [x] + [] == [x];
  }

  /** The three properties of the export order, and its length. */
  lemma SortByScoreOrder(items: seq<ExportItem>)
    ensures |SortByScore(items)| == |items|
    ensures ScoreDescending(SortByScore(items))
    ensures multiset(SortByScore(items)) == multiset(items)
    ensures forall v :: WithScore(SortByScore(items), v) == WithScore(items, v)
  {
    SortByScoreDescending(items);
    SortByScorePermutes(items);
    assert |SortByScore(items)| == |multiset(SortByScore(items))| == |items|;
    forall v ensures WithScore(SortByScore(items), v) == WithScore(items, v) {
      SortByScoreStable(items, v);
    }
  }

  // ---------------------------------------------------------------- export_json

  function ToItem(c: Store.Content): ExportItem
  {
    ExportItem(c.id, c.contentType, c.title, c.url, c.description, c.thumbnail, c.publishedAt,
               CalculateScore(c))
  }

  /** `export_json` up to serialising: every stored article, scored, in the export order.
      The items are `db.FetchAll()`'s rows (returned in `rows`) carried over with their score. */
  method ExportJson(db: Store.Db) returns (exported: seq<ExportItem>, ghost rows: seq<Store.Content>)
    requires db.Valid()
    ensures Store.SortedByPublished(rows) && Store.Ids(rows) == db.contents.Keys
    ensures forall i :: 0 <= i < |rows| ==> rows[i].id in db.contents && db.contents[rows[i].id].content == rows[i]
    ensures |exported| == |db.contents|
    ensures ScoreDescending(exported)
    ensures multiset(exported) == multiset(Items(rows))
    ensures forall v :: WithScore(exported, v) == WithScore(Items(rows), v)
  {
    var items := db.FetchAll();
    rows := items;
    var scored: seq<ExportItem> := [];
    var i := 0;
    while i < |items|
      invariant 0 <= i <= |items|
      invariant scored == Items(items[..i])
    {
      ItemsSnoc(items, i);
      scored := scored + [ToItem(items[i])];
      i := i + 1;
    }
    assert items[..i] == items;
    exported := SortByScore(scored);
    SortByScoreOrder(scored);
  }

  /** The rows carried over with their score. */
  function Items(rows: seq<Store.Content>): (items: seq<ExportItem>)
    ensures |items| == |rows|
  {
    if rows == [] then [] else Items(rows[..|rows| - 1]) + [ToItem(rows[|rows| - 1])]
  }

  lemma ItemsSnoc(rows: seq<Store.Content>, i: nat)
    requires i < |rows|
    ensures Items(rows[..i + 1]) == Items(rows[..i]) + [ToItem(rows[i])]
  {
    assert rows[..i + 1][..i] == rows[..i];
  }
}
