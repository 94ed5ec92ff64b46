/**
 * The producer-credit parser: `credits.split(",|\\s+and\\s+")`, then `trim`
 * on every piece, and the pieces that are empty after trimming dropped.
 * The regex is not interpreted: the match Java's engine finds at a position
 * is computed by a direct scan (`MatchLen`) and proved to be the longest
 * prefix in the regex's language.
 */
module CreditParser {
  import opened JavaText

  // ----- The separator regex ,|\s+and\s+ -----

  /** Length of the run of regex spaces in `s` that starts at position `i`. */
  function SpaceRun(s: string, i: nat): (k: nat)
    requires i <= |s|
    ensures i + k <= |s|
    decreases |s| - i
  {
    if i < |s| && IsRegexSpace(s[i]) then 1 + SpaceRun(s, i + 1) else 0
  }

  /** The run consists of spaces and stops at the end or at a non-space. */
  lemma {:induction false} SpaceRunIsLongest(s: string, i: nat)
    requires i <= |s|
    ensures forall j :: i <= j < i + SpaceRun(s, i) ==> IsRegexSpace(s[j])
    ensures i + SpaceRun(s, i) == |s| || !IsRegexSpace(s[i + SpaceRun(s, i)])
    decreases |s| - i
  {
    if i < |s| && IsRegexSpace(s[i]) {
      SpaceRunIsLongest(s, i + 1);
    }
  }

  /** Conversely, `k` spaces followed by a non-space or by the end make a run of length `k`. */
  lemma {:induction false} SpaceRunExact(s: string, i: nat, k: nat)
    requires i + k <= |s|
    requires forall j :: i <= j < i + k ==> IsRegexSpace(s[j])
    requires i + k == |s| || !IsRegexSpace(s[i + k])
    ensures SpaceRun(s, i) == k
    decreases k
  {
    if k > 0 {
      SpaceRunExact(s, i + 1, k - 1);
    }
  }

  /** `k` spaces make a run of at least `k`. */
  lemma {:induction false} SpaceRunAtLeast(s: string, i: nat, k: nat)
    requires i + k <= |s|
    requires forall j :: i <= j < i + k ==> IsRegexSpace(s[j])
    ensures SpaceRun(s, i) >= k
    decreases k
  {
    if k > 0 {
      SpaceRunAtLeast(s, i + 1, k - 1);
    }
  }

  /** `s` has the lower-case word `and` at position `i`. */
  predicate AndAt(s: string, i: nat) {
    i + 3 <= |s| && s[i] == 'a' && s[i + 1] == 'n' && s[i + 2] == 'd'
  }

  predicate AllSpaces(w: string) { forall j :: 0 <= j < |w| ==> IsRegexSpace(w[j]) }

  /**
   * Membership in the language of `,|\s+and\s+`: a comma, or one or more
   * spaces, the lower-case word `and`, and one or more spaces.
   */
  predicate IsSeparator(w: string) {
    (|w| == 1 && w[0] == ',') ||
    exists p :: 0 < p && p + 3 < |w| && AllSpaces(w[..p]) && AndAt(w, p) && AllSpaces(w[p + 3..])
  }

  /**
   * Length of the match that Java's regex engine finds for `,|\s+and\s+`
   * when it tries position `i` of `s`, or 0 when nothing matches there: the
   * `,` alternative is tried first, and both `\s+` are greedy.
   */
  function MatchAt(s: string, i: nat): (n: nat)
    requires i <= |s|
    ensures i + n <= |s|
  {
    if i == |s| then 0
    else if s[i] == ',' then 1
    else
      var a := SpaceRun(s, i);
      if 0 < a && AndAt(s, i + a) && i + a + 3 < |s| && IsRegexSpace(s[i + a + 3]) then
        a + 3 + SpaceRun(s, i + a + 3)
      else 0
  }

  /** A positive match covers a word of the separator language. */
  lemma MatchIsSeparator(t: string)
    requires MatchAt(t, 0) > 0
    ensures IsSeparator(t[..MatchAt(t, 0)])
  {
    var n := MatchAt(t, 0);
    var w := t[..n];
    if t[0] != ',' {
      var a := SpaceRun(t, 0);
      SpaceRunIsLongest(t, 0);
      SpaceRunIsLongest(t, a + 3);
      assert AllSpaces(w[..a]);
      var tail := w[a + 3..];
      assert AllSpaces(tail) by {
        forall j | 0 <= j < |tail| ensures IsRegexSpace(tail[j]) {
          assert tail[j] == t[a + 3 + j];
        }
      }
      assert AndAt(w, a);
    } else {
      assert |w| == 1 && w[0] == ',';
    }
  }

  /** Every prefix of `t` in the separator language lies within the match. */
  lemma SeparatorWithinMatch(t: string, m: nat)
    requires 0 < m <= |t| && IsSeparator(t[..m])
    ensures m <= MatchAt(t, 0)
  {
    var w := t[..m];
    assert w[0] == t[0];
    if !(|w| == 1 && w[0] == ',') {
      var p :| 0 < p && p + 3 < |w| && AllSpaces(w[..p]) && AndAt(w, p) && AllSpaces(w[p + 3..]);
      assert w[..p][0] == t[0];
      assert forall j :: 0 <= j < p ==> IsRegexSpace(t[j]) by {
        forall j | 0 <= j < p ensures IsRegexSpace(t[j]) {
          assert t[j] == w[..p][j];
        }
      }
      SpaceRunExact(t, 0, p);
      assert forall j :: p + 3 <= j < m ==> IsRegexSpace(t[j]) by {
        forall j | p + 3 <= j < m ensures IsRegexSpace(t[j]) {
          assert t[j] == w[p + 3..][j - p - 3];
        }
      }
      assert AndAt(t, p);
      SpaceRunAtLeast(t, p + 3, m - p - 3);
    }
  }

  /**
   * `MatchAt` is the match the engine reports at the front of `t`: when
   * positive, the text it covers is in the separator language, and no longer
   * prefix of `t` is. (A zero-width match is impossible, so 0 means none.)
   */
  lemma MatchAtIsLongestSeparator(t: string)
    ensures MatchAt(t, 0) > 0 ==> IsSeparator(t[..MatchAt(t, 0)])
    ensures forall m :: MatchAt(t, 0) < m <= |t| ==> !IsSeparator(t[..m])
  {
    if MatchAt(t, 0) > 0 {
      MatchIsSeparator(t);
    }
    forall m | MatchAt(t, 0) < m <= |t| ensures !IsSeparator(t[..m]) {
      if IsSeparator(t[..m]) {
        SeparatorWithinMatch(t, m);
      }
    }
  }

  // ----- String.split -----

  /** The length of the match the engine finds when it tries each position of `s`. */
  function MatchTable(s: string): (ms: seq<nat>)
    ensures |ms| == |s|
    ensures forall j :: 0 <= j < |s| ==> j + ms[j] <= |s|
  {
    seq(|s|, j requires 0 <= j < |s| => MatchAt(s, j))
  }

  /** Every match recorded in `ms` ends inside the text. */
  predicate Fits(ms: seq<nat>) {
    forall j :: 0 <= j < |ms| ==> j + ms[j] <= |ms|
  }

  /**
   * The pieces of `s` between successive matches, trying every position from
   * `i` on and resuming after each match (`ms[j]` is the length of the match
   * at `j`, 0 for none); the current piece began at `start`.
   */
  function PiecesOf(s: string, ms: seq<nat>, start: nat, i: nat): (ps: seq<string>)
    requires |ms| == |s| && Fits(ms) && start <= i <= |s|
    decreases |s| - i
  {
    if i == |s| then [s[start..]]
    else if ms[i] > 0 then [s[start..i]] + PiecesOf(s, ms, i + ms[i], i + ms[i])
    else PiecesOf(s, ms, start, i + 1)
  }

  /** The pieces of `s` between the separator matches `Matcher.find` reports. */
  function Pieces(s: string): seq<string>
  {
    PiecesOf(s, MatchTable(s), 0, 0)
  }

  /** Removes the empty strings at the end, as `split` with limit 0 does. */
  function DropTrailingEmpty(ps: seq<string>): seq<string>
  {
    if ps != [] && ps[|ps| - 1] == [] then DropTrailingEmpty(ps[..|ps| - 1]) else ps
  }

  /** What is dropped is the longest run of empty strings at the end, and nothing else. */
  lemma {:induction false} DropTrailingEmptyKeepsPrefix(ps: seq<string>)
    ensures DropTrailingEmpty(ps) <= ps
    ensures DropTrailingEmpty(ps) == [] || DropTrailingEmpty(ps)[|DropTrailingEmpty(ps)| - 1] != []
    ensures forall j :: |DropTrailingEmpty(ps)| <= j < |ps| ==> ps[j] == []
  {
    if ps != [] && ps[|ps| - 1] == [] {
      DropTrailingEmptyKeepsPrefix(ps[..|ps| - 1]);
    }
  }

  /**
   * `s.split(",|\\s+and\\s+")`: the whole string when nothing matches,
   * otherwise the pieces with the trailing empty ones dropped.
   */
  function Split(s: string): seq<string>
  {
    var raw := Pieces(s);
    if |raw| == 1 then raw else DropTrailingEmpty(raw)
  }

  /** The name one piece contributes: its trimmed text, or nothing when that is empty. */
  function NameOf(piece: string): seq<string>
  {
    var t := Trim(piece);
    if t == [] then [] else [t]
  }

  /** `f` applied to every element of `ps`, the results concatenated in order. */
  function FlatMap(f: string -> seq<string>, ps: seq<string>): seq<string>
  {
    if ps == [] then [] else FlatMap(f, ps[..|ps| - 1]) + f(ps[|ps| - 1])
  }

  /** The non-blank pieces, trimmed, in order. */
  function TrimmedNames(ps: seq<string>): seq<string>
  {
    FlatMap(NameOf, ps)
  }

  /** The producer names one credit string names, in order of appearance. */
  function ProducerNames(credits: string): seq<string>
  {
    TrimmedNames(Split(credits))
  }

  lemma {:induction false} TrimmedNamesWellFormed(ps: seq<string>)
    ensures |TrimmedNames(ps)| <= |ps|
    ensures forall n <- TrimmedNames(ps) :: n != [] && IsTrimmed(n)
  {
    if ps != [] {
      TrimmedNamesWellFormed(ps[..|ps| - 1]);
      var t := Trim(ps[|ps| - 1]);
      TrimIsTrimmed(ps[|ps| - 1]);
      assert TrimmedNames(ps) == TrimmedNames(ps[..|ps| - 1]) + if t == [] then [] else [t];
    }
  }

  /** Every name a credit string yields is non-empty and has no blank char at either end. */
  lemma ProducerNamesWellFormed(credits: string)
    ensures forall n <- ProducerNames(credits) :: n != [] && IsTrimmed(n)
  {
    TrimmedNamesWellFormed(Split(credits));
  }

  // ----- Lemmas about the pieces -----

  lemma {:induction false} FlatMapAppend(f: string -> seq<string>, x: seq<string>, y: seq<string>)
    ensures FlatMap(f, x + y) == FlatMap(f, x) + FlatMap(f, y)
  {
    if y == [] {
      assert x + y == x;
    } else {
      var y', last := y[..|y| - 1], y[|y| - 1];
      var xy := x + y;
      assert xy[..|xy| - 1] == x + y';
      assert xy[|xy| - 1] == last;
      FlatMapAppend(f, x, y');
    }
  }

  lemma TrimmedNamesAppend(x: seq<string>, y: seq<string>)
    ensures TrimmedNames(x + y) == TrimmedNames(x) + TrimmedNames(y)
  {
    FlatMapAppend(NameOf, x, y);
  }

  lemma {:induction false} TrimmedNamesDropTrailing(ps: seq<string>)
    ensures TrimmedNames(DropTrailingEmpty(ps)) == TrimmedNames(ps)
  {
    if ps != [] && ps[|ps| - 1] == [] {
      assert NameOf(ps[|ps| - 1]) == [];
      TrimmedNamesDropTrailing(ps[..|ps| - 1]);
    }
  }

  /** Dropping trailing empty pieces never changes the names: they are blank anyway. */
  lemma NamesFromPieces(s: string)
    ensures ProducerNames(s) == TrimmedNames(Pieces(s))
  {
    var raw := Pieces(s);
    if |raw| != 1 {
      assert Split(s) == DropTrailingEmpty(raw);
      TrimmedNamesDropTrailing(raw);
    }
  }

  lemma {:induction false} SpaceRunShift(p: string, s: string, j: nat)
    requires j <= |s|
    ensures SpaceRun(p + s, |p| + j) == SpaceRun(s, j)
    decreases |s| - j
  {
    if j < |s| {
      assert (p + s)[|p| + j] == s[j];
      SpaceRunShift(p, s, j + 1);
    }
  }

  /** The engine only looks ahead: what matches at a position of `s` matches there after any prefix too. */
  lemma MatchAtShift(p: string, s: string, j: nat)
    requires j <= |s|
    ensures MatchAt(p + s, |p| + j) == MatchAt(s, j)
  {
    var ps := p + s;
    if j < |s| {
      assert ps[|p| + j] == s[j];
      SpaceRunShift(p, s, j);
      var a := SpaceRun(s, j);
      if j + a + 3 <= |s| {
        assert ps[|p| + j + a] == s[j + a];
        assert ps[|p| + j + a + 1] == s[j + a + 1];
        assert ps[|p| + j + a + 2] == s[j + a + 2];
      }
      if j + a + 3 < |s| {
        assert ps[|p| + j + a + 3] == s[j + a + 3];
        SpaceRunShift(p, s, j + a + 3);
      }
    }
  }

  lemma MatchTableSuffix(p: string, s: string)
    ensures MatchTable(p + s)[|p|..] == MatchTable(s)
  {
    forall k | 0 <= k < |s| ensures MatchTable(p + s)[|p| + k] == MatchTable(s)[k] {
      MatchAtShift(p, s, k);
    }
  }

  lemma {:induction false} PiecesOfShift(p: string, mp: seq<nat>, s: string, ms: seq<nat>, start: nat, i: nat)
    requires |mp| == |p| && |ms| == |s| && Fits(ms) && Fits(mp + ms) && start <= i <= |s|
    ensures PiecesOf(p + s, mp + ms, |p| + start, |p| + i) == PiecesOf(s, ms, start, i)
    decreases |s| - i
  {
    var ps, m := p + s, mp + ms;
    if i < |s| {
      assert m[|p| + i] == ms[i];
      if ms[i] > 0 {
        assert ps[|p| + start..|p| + i] == s[start..i];
        PiecesOfShift(p, mp, s, ms, i + ms[i], i + ms[i]);
      } else {
        PiecesOfShift(p, mp, s, ms, start, i + 1);
      }
    } else {
      assert ps[|p| + start..] == s[start..];
    }
  }

  lemma {:induction false} PiecesOfNoMatch(s: string, ms: seq<nat>, start: nat, i: nat)
    requires |ms| == |s| && Fits(ms) && start <= i <= |s|
    requires forall j :: i <= j < |s| ==> ms[j] == 0
    ensures PiecesOf(s, ms, start, i) == [s[start..]]
    decreases |s| - i
  {
    if i < |s| {
      PiecesOfNoMatch(s, ms, start, i + 1);
    }
  }

  /** After the match at the join, the pieces are those of `b` alone. */
  lemma PiecesAfterJoin(a: string, sep: string, b: string, mb: seq<nat>, m: seq<nat>)
    requires |mb| == |b| && Fits(mb) && |m| == |a + sep + b| && Fits(m)
    requires m[|a| + |sep|..] == mb
    ensures PiecesOf(a + sep + b, m, |a| + |sep|, |a| + |sep|) == PiecesOf(b, mb, 0, 0)
  {
    assert a + sep + b == (a + sep) + b;
    assert m == m[..|a| + |sep|] + mb;
    PiecesOfShift(a + sep, m[..|a| + |sep|], b, mb, 0, 0);
  }

  /**
   * When the table of `a + sep + b` agrees with that of `a` before the join,
   * records a match of length |sep| at the join, and ends with the table of
   * `b`, its pieces are those of `a` followed by those of `b`.
   */
  lemma {:induction false} PiecesOfJoin(a: string, ma: seq<nat>, sep: string, b: string, mb: seq<nat>,
                                        m: seq<nat>, start: nat, i: nat)
    requires |ma| == |a| && |mb| == |b| && Fits(ma) && Fits(mb)
    requires |m| == |a + sep + b| && Fits(m) && start <= i <= |a|
    requires m[..|a|] == ma && sep != [] && m[|a|] == |sep| && m[|a| + |sep|..] == mb
    ensures PiecesOf(a + sep + b, m, start, i) == PiecesOf(a, ma, start, i) + PiecesOf(b, mb, 0, 0)
    decreases |a| - i
  {
    var s := a + sep + b;
    if i == |a| {
      assert s[start..i] == a[start..];
      PiecesAfterJoin(a, sep, b, mb, m);
      PiecesAtJoin(s, m, a, ma, start, PiecesOf(b, mb, 0, 0));
    } else {
      assert m[i] == ma[i] by {
        assert m[..|a|][i] == m[i];
      }
      assert s[start..i] == a[start..i];
      if ma[i] > 0 {
        PiecesOfJoin(a, ma, sep, b, mb, m, i + ma[i], i + ma[i]);
      } else {
        PiecesOfJoin(a, ma, sep, b, mb, m, start, i + 1);
      }
      PiecesAgreeStep(s, m, a, ma, start, i, PiecesOf(b, mb, 0, 0));
    }
  }

  /** At the end of `a`, the match in `s` closes the last piece of `a`. */
  lemma PiecesAtJoin(s: string, ms: seq<nat>, a: string, ma: seq<nat>, start: nat, tail: seq<string>)
    requires |ms| == |s| && Fits(ms) && |ma| == |a| && Fits(ma) && start <= |a| < |s|
    requires ms[|a|] > 0 && s[start..|a|] == a[start..]
    requires PiecesOf(s, ms, |a| + ms[|a|], |a| + ms[|a|]) == tail
    ensures PiecesOf(s, ms, start, |a|) == PiecesOf(a, ma, start, |a|) + tail
  {
    assert PiecesOf(a, ma, start, |a|) == [a[start..]];
  }

  /**
   * One step before the end of `a`: when `s` and `a` agree at `i`, the
   * relation between their pieces carries from the next position back to `i`.
   */
  lemma PiecesAgreeStep(s: string, ms: seq<nat>, a: string, ma: seq<nat>, start: nat, i: nat,
                        tail: seq<string>)
    requires |ms| == |s| && Fits(ms) && |ma| == |a| && Fits(ma) && start <= i < |a| <= |s|
    requires ms[i] == ma[i] && s[start..i] == a[start..i]
    requires ma[i] > 0 ==>
      PiecesOf(s, ms, i + ma[i], i + ma[i]) == PiecesOf(a, ma, i + ma[i], i + ma[i]) + tail
    requires ma[i] == 0 ==> PiecesOf(s, ms, start, i + 1) == PiecesOf(a, ma, start, i + 1) + tail
    ensures PiecesOf(s, ms, start, i) == PiecesOf(a, ma, start, i) + tail
  {
    if ma[i] > 0 {
      var piece, restA := a[start..i], PiecesOf(a, ma, i + ma[i], i + ma[i]);
      assert [piece] + (restA + tail) == ([piece] + restA) + tail;
    }
  }

  /**
   * When the separator found at the join is exactly `sep`, and every position
   * before it matches as it does in `a` alone, the names of `a + sep + b` are
   * those of `a` followed by those of `b`.
   */
  lemma NamesJoin(a: string, sep: string, b: string)
    requires sep != [] && MatchAt(a + sep + b, |a|) == |sep|
    requires forall j :: 0 <= j < |a| ==> MatchAt(a + sep + b, j) == MatchAt(a, j)
    ensures ProducerNames(a + sep + b) == ProducerNames(a) + ProducerNames(b)
  {
    var s := a + sep + b;
    var m := MatchTable(s);
    assert m[..|a|] == MatchTable(a);
    assert s == (a + sep) + b;
    MatchTableSuffix(a + sep, b);
    PiecesOfJoin(a, MatchTable(a), sep, b, MatchTable(b), m, 0, 0);
    NamesFromPieces(s);
    NamesFromPieces(a);
    NamesFromPieces(b);
    TrimmedNamesAppend(Pieces(a), Pieces(b));
  }

  // ----- A comma always separates -----

  /**
   * Before a char that is neither a regex space nor a letter of `and`, every
   * position of `a` matches as it does in `a` alone.
   */
  lemma MatchAtBeforeStop(a: string, v: string, j: nat)
    requires j < |a| && v != []
    requires !IsRegexSpace(v[0]) && v[0] != 'a' && v[0] != 'n' && v[0] != 'd'
    ensures MatchAt(a + v, j) == MatchAt(a, j)
  {
    var s := a + v;
    assert s[j] == a[j];
    assert s[|a|] == v[0];
    if a[j] != ',' {
      var r := SpaceRun(a, j);
      SpaceRunIsLongest(a, j);
      SpaceRunExact(s, j, r);
      var k := j + r;
      if k + 3 <= |a| {
        assert s[k] == a[k] && s[k + 1] == a[k + 1] && s[k + 2] == a[k + 2];
        if k + 3 < |a| {
          assert s[k + 3] == a[k + 3];
          var r' := SpaceRun(a, k + 3);
          SpaceRunIsLongest(a, k + 3);
          SpaceRunExact(s, k + 3, r');
        }
      }
    }
  }

  /** The names of `a + "," + b` are those of `a` followed by those of `b`. */
  lemma CommaSeparates(a: string, b: string)
    ensures ProducerNames(a + "," + b) == ProducerNames(a) + ProducerNames(b)
  {
    var s := a + "," + b;
    assert s == a + ("," + b);
    assert s[|a|] == ',';
    forall j | 0 <= j < |a| ensures MatchAt(s, j) == MatchAt(a, j) {
      MatchAtBeforeStop(a, "," + b, j);
    }
    NamesJoin(a, ",", b);
  }

  // ----- A spaced "and" separates -----

  /** `t` ends in a space followed by the word `and`. */
  predicate EndsWithSpacedAnd(t: string) {
    |t| >= 4 && IsRegexSpace(t[|t| - 4]) && AndAt(t, |t| - 3)
  }

  /**
   * When `a` ends in neither a space nor a spaced `and`, every position of `a`
   * matches as it does in `a` alone, whatever follows.
   */
  lemma MatchAtBeforeAnyText(a: string, v: string, j: nat)
    requires j < |a| && !IsRegexSpace(a[|a| - 1]) && !EndsWithSpacedAnd(a)
    requires v == [] || IsRegexSpace(v[0])
    ensures MatchAt(a + v, j) == MatchAt(a, j)
  {
    var s := a + v;
    assert s[j] == a[j];
    if a[j] != ',' {
      var r := SpaceRun(a, j);
      SpaceRunIsLongest(a, j);
      SpaceRunExact(s, j, r);
      var k := j + r;
      if k + 3 <= |a| {
        assert s[k] == a[k] && s[k + 1] == a[k + 1] && s[k + 2] == a[k + 2];
        if k + 3 < |a| {
          assert s[k + 3] == a[k + 3];
          var r' := SpaceRun(a, k + 3);
          SpaceRunIsLongest(a, k + 3);
          SpaceRunExact(s, k + 3, r');
        }
      } else if k < |a| && v != [] {
        assert s[|a|] == v[0];
      }
    }
  }

  /** Before a trimmed text, the match of a spaced `and` is exactly its five chars. */
  lemma SpacedAndMatch(a: string, b: string)
    requires IsTrimmed(b)
    ensures MatchAt(a + " and " + b, |a|) == 5
  {
    var s := a + " and " + b;
    var i := |a|;
    assert s[i] == ' ' && s[i + 1] == 'a' && s[i + 2] == 'n' && s[i + 3] == 'd' && s[i + 4] == ' ';
    SpaceRunExact(s, i, 1);
    if b != [] {
      assert s[i + 5] == b[0];
    }
    SpaceRunExact(s, i + 4, 1);
  }

  /**
   * The names of `a + " and " + b` are those of `a` followed by those of
   * `b`, when both are trimmed and `a` does not itself end in a spaced `and`
   * (which would make the separator start earlier).
   */
  lemma AndSeparates(a: string, b: string)
    requires IsTrimmed(a) && IsTrimmed(b) && !EndsWithSpacedAnd(a)
    ensures ProducerNames(a + " and " + b) == ProducerNames(a) + ProducerNames(b)
  {
    var s := a + " and " + b;
    assert s == a + (" and " + b);
    SpacedAndMatch(a, b);
    forall j | 0 <= j < |a| ensures MatchAt(s, j) == MatchAt(a, j) {
      MatchAtBeforeAnyText(a, " and " + b, j);
    }
    NamesJoin(a, " and ", b);
  }

  // ----- Text without a separator -----

  /** No position of `s` starts a separator match. */
  predicate NoSeparator(s: string) {
    forall i :: 0 <= i < |s| ==> MatchAt(s, i) == 0
  }

  /** A credit string with no separator names one producer, its trimmed text, or none when blank. */
  lemma NoSeparatorYieldsTrimmed(s: string)
    requires NoSeparator(s)
    ensures ProducerNames(s) == if IsBlank(s) then [] else [Trim(s)]
  {
    PiecesOfNoMatch(s, MatchTable(s), 0, 0);
    assert s[0..] == s;
    assert Pieces(s) == [s];
    NamesFromPieces(s);
    assert [s][..0] == [];
    assert FlatMap(NameOf, [s]) == FlatMap(NameOf, []) + NameOf(s);
    TrimIsTrimmed(s);
  }

  /**
   * A check that evaluates on literals and rules out separators: from `i`
   * on, no comma, and no `a` right after a regex space.
   */
  function PlainFrom(s: string, i: nat): bool
    decreases |s| - i
  {
    i >= |s| ||
    (s[i] != ',' && !(IsRegexSpace(s[i]) && i + 1 < |s| && s[i + 1] == 'a') && PlainFrom(s, i + 1))
  }

  lemma {:induction false} PlainFromAt(s: string, i: nat, j: nat)
    requires PlainFrom(s, i) && i <= j < |s|
    ensures s[j] != ',' && !(IsRegexSpace(s[j]) && j + 1 < |s| && s[j + 1] == 'a')
    decreases j - i
  {
    if i < j {
      PlainFromAt(s, i + 1, j);
    }
  }

  lemma PlainHasNoSeparator(s: string)
    requires PlainFrom(s, 0)
    ensures NoSeparator(s)
  {
    forall i | 0 <= i < |s| ensures MatchAt(s, i) == 0 {
      PlainFromAt(s, 0, i);
      var a := SpaceRun(s, i);
      SpaceRunIsLongest(s, i);
      if 0 < a && AndAt(s, i + a) {
        PlainFromAt(s, 0, i + a - 1);
      }
    }
  }

  // ----- Joining names back -----

  /** A producer name that survives a round trip: non-empty, trimmed, no separator in it. */
  predicate IsPlainName(n: string) {
    n != [] && IsTrimmed(n) && NoSeparator(n)
  }

  /** Names joined by commas, the inverse of the split on plain names. */
  function JoinCredits(names: seq<string>): string
  {
    if |names| == 0 then ""
    else if |names| == 1 then names[0]
    else names[0] + "," + JoinCredits(names[1..])
  }

  /** Splitting comma-joined plain names gives the names back, in order. */
  lemma {:induction false} SplitJoinRoundTrip(names: seq<string>)
    requires forall n <- names :: IsPlainName(n)
    ensures ProducerNames(JoinCredits(names)) == names
  {
    if |names| == 0 {
      NoSeparatorYieldsTrimmed("");
    } else {
      var n := names[0];
      assert n in names;
      NoSeparatorYieldsTrimmed(n);
      TrimFixedPoints(n);
      if |names| > 1 {
        CommaSeparates(n, JoinCredits(names[1..]));
        SplitJoinRoundTrip(names[1..]);
      }
    }
  }

  // ----- Worked examples -----

  /** A trimmed, non-empty text in which no position starts a separator is exactly one producer's name. */
  lemma PlainName(s: string)
    requires IsPlainName(s)
    ensures ProducerNames(s) == [s]
  {
    NoSeparatorYieldsTrimmed(s);
    TrimFixedPoints(s);
  }

  lemma LeadingSpaceTrimmed(s: string)
    requires IsTrimmed(s)
    ensures Trim(" " + s) == s
  {
    TrimPadded(" ", s, "");
    assert " " + s + "" == " " + s;
    TrimFixedPoints(s);
  }

  /** `b` opens with the word `and` and a space, which a space in front turns into a separator. */
  predicate StartsWithAndSpace(b: string) {
    AndAt(b, 0) && |b| > 3 && IsRegexSpace(b[3])
  }

  /** One space in front of a plain name adds a separator only when the name opens with `and` and a space. */
  lemma SpaceLedNoSeparator(b: string)
    requires IsPlainName(b)
    ensures NoSeparator(" " + b) <==> !StartsWithAndSpace(b)
  {
    var s := " " + b;
    assert s[0] == ' ' && s[1..] == b;
    SpaceRunShift(" ", b, 0);
    assert SpaceRun(s, 0) == 1;
    if StartsWithAndSpace(b) {
      assert s[1] == 'a' && s[2] == 'n' && s[3] == 'd' && s[4] == b[3];
      assert MatchAt(s, 0) > 0;
    } else {
      forall i | 0 <= i < |s| ensures MatchAt(s, i) == 0 {
        if i > 0 {
          MatchAtShift(" ", b, i - 1);
        } else if AndAt(s, 1) && 4 < |s| {
          assert s[4] == b[3];
        }
      }
    }
  }

  /**
   * "A, B" names A then B for plain names A and B, unless B opens with `and`
   * and a space: then ", and " is read as a comma and a spaced `and`.
   */
  lemma TwoNamesByCommaSpace(a: string, b: string)
    requires IsPlainName(a) && IsPlainName(b) && !StartsWithAndSpace(b)
    ensures ProducerNames(a + ", " + b) == [a, b]
  {
    PlainName(a);
    SpaceLedNoSeparator(b);
    NoSeparatorYieldsTrimmed(" " + b);
    LeadingSpaceTrimmed(b);
    assert !IsTrimmable((" " + b)[1]);
    assert a + "," + (" " + b) == a + ", " + b;
    CommaSeparates(a, " " + b);
  }

  /** "A and B" names A then B for plain names A and B, unless A itself ends in a spaced `and`. */
  lemma TwoNamesByAnd(a: string, b: string)
    requires IsPlainName(a) && IsPlainName(b) && !EndsWithSpacedAnd(a)
    ensures ProducerNames(a + " and " + b) == [a, b]
  {
    PlainName(a);
    PlainName(b);
    AndSeparates(a, b);
  }

  /** A literal's text is plain when the char-by-char check `PlainFrom` accepts it. */
  lemma PlainLiteral(s: string)
    requires PlainFrom(s, 0) && s != [] && IsTrimmed(s)
    ensures IsPlainName(s)
  {
    PlainHasNoSeparator(s);
  }

  /** A comma followed by a space separates two producers. */
  lemma ExampleComma()
    ensures ProducerNames("Joel Silver, Bruce Berman") == ["Joel Silver", "Bruce Berman"]
  {
    PlainLiteral("Joel Silver");
    PlainLiteral("Bruce Berman");
    TwoNamesByCommaSpace("Joel Silver", "Bruce Berman");
    assert "Joel Silver" + ", " + "Bruce Berman" == "Joel Silver, Bruce Berman";
  }

  /** A spaced, lower-case `and` separates two producers. */
  lemma ExampleAnd()
    ensures ProducerNames("Joel Silver and Bruce Berman") == ["Joel Silver", "Bruce Berman"]
  {
    PlainLiteral("Joel Silver");
    PlainLiteral("Bruce Berman");
    TwoNamesByAnd("Joel Silver", "Bruce Berman");
    assert "Joel Silver" + " and " + "Bruce Berman" == "Joel Silver and Bruce Berman";
  }

  /** The word is matched case-sensitively: an upper-case AND does not separate. */
  lemma ExampleUpperCaseAnd()
    ensures ProducerNames("Joel AND Bruce") == ["Joel AND Bruce"]
  {
    PlainLiteral("Joel AND Bruce");
    PlainName("Joel AND Bruce");
  }
}
