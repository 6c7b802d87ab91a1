/**
 * The string operations the slicer relies on, with Python's meaning:
 * `d in s`, `s.split(d)` and `int(s)`; and `str(i)`, which the slicer does
 * not call, used by the lemmas to write numerals.
 */
module Text {
  import opened Outcomes

  /** `d` occurs in `s` starting at index `i`. */
  predicate OccursAt(s: string, d: string, i: int) {
    0 <= i && i + |d| <= |s| && s[i..i + |d|] == d
  }

  /** The leftmost occurrence of `d` in `s` at or after `from`. */
  function FindFrom(s: string, d: string, from: nat): (r: Option<nat>)
    ensures r.Some? ==> from <= r.value && OccursAt(s, d, r.value)
    ensures r.Some? ==> forall j :: from <= j < r.value ==> !OccursAt(s, d, j)
    ensures r.None? ==> forall j :: from <= j ==> !OccursAt(s, d, j)
    decreases |s| - from
  {
    if from + |d| > |s| then None
    else if s[from..from + |d|] == d then Some(from)
    else FindFrom(s, d, from + 1)
  }

  /** Python's `s.find(d)`, as an option. */
  function Find(s: string, d: string): Option<nat> {
    FindFrom(s, d, 0)
  }

  /** Python's `d in s`: `d` occurs at some index of `s`, the leftmost one being `Find(s, d)`. */
  predicate Contains(s: string, d: string)
    ensures Contains(s, d) ==> Find(s, d).Some? && OccursAt(s, d, Find(s, d).value)
  {
    Find(s, d).Some?
  }

  /** `d in s` holds exactly when `d` occurs somewhere in `s`. */
  lemma ContainsOccurs(s: string, d: string, i: int)
    ensures OccursAt(s, d, i) ==> Contains(s, d)
    ensures Contains(s, d) ==> Find(s, d).Some? && OccursAt(s, d, Find(s, d).value)
  {
  }

  /** Nothing before the leftmost occurrence contains the separator. */
  lemma PrefixBeforeFirst(s: string, d: string, i: nat)
    requires |d| > 0 && Find(s, d) == Some(i)
    ensures !Contains(s[..i], d)
  {
    assert FindFrom(s, d, 0) == Some(i);
    forall j | 0 <= j && j + |d| <= i ensures !OccursAt(s[..i], d, j) {
      assert s[..i][j..j + |d|] == s[j..j + |d|];
      assert !OccursAt(s, d, j);
    }
  }

  /** For a one-character separator, `[c] in s` is `c in s`. */
  lemma ContainsChar(s: string, c: char)
    ensures Contains(s, [c]) <==> c in s
  {
    forall j | 0 <= j < |s| ensures OccursAt(s, [c], j) <==> s[j] == c {
      assert s[j..j + 1] == [s[j]];
    }
    if c in s {
      var k :| 0 <= k < |s| && s[k] == c;
      ContainsOccurs(s, [c], k);
    }
  }

  /** The parts joined back with the separator, as Python's `d.join(parts)`. */
  function Join(parts: seq<string>, d: string): string
    decreases |parts|
  {
    if parts == [] then []
    else if |parts| == 1 then parts[0]
    else parts[0] + d + Join(parts[1..], d)
  }

  /**
   * Python's `s.split(d)` for a non-empty separator: cut at the leftmost
   * occurrence, then split the rest.
   */
  function Split(s: string, d: string): (parts: seq<string>)
    requires |d| > 0
    ensures |parts| >= 1
    ensures |parts| == 1 <==> !Contains(s, d)
    decreases |s|
  {
    match Find(s, d)
    case None => [s]
    case Some(i) => [s[..i]] + Split(s[i + |d|..], d)
  }

  /** Joining the parts with the separator gives back the split string. */
  lemma {:induction false} SplitRejoins(s: string, d: string)
    requires |d| > 0
    ensures Join(Split(s, d), d) == s
    decreases |s|
  {
    match Find(s, d)
    case None =>
    case Some(i) =>
      ContainsOccurs(s, d, i);
      CutAt(s, d, i);
      var rest := s[i + |d|..];
      SplitRejoins(rest, d);
      var parts := Split(s, d);
      assert parts[1..] == Split(rest, d);
  }

  /** No part of a split contains the separator. */
  lemma {:induction false} SplitPartsFree(s: string, d: string)
    requires |d| > 0
    ensures forall k :: 0 <= k < |Split(s, d)| ==> !Contains(Split(s, d)[k], d)
    decreases |s|
  {
    if Find(s, d).Some? {
      var i := Find(s, d).value;
      var rest := s[i + |d|..];
      var parts := Split(s, d);
      assert parts == [s[..i]] + Split(rest, d);
      PrefixBeforeFirst(s, d, i);
      SplitPartsFree(rest, d);
      forall k | 0 <= k < |parts|
        ensures !Contains(parts[k], d)
      {
        if k == 0 {
          assert parts[0] == s[..i];
        } else {
          assert parts[k] == Split(rest, d)[k - 1];
        }
      }
    }
  }

  /** No occurrence of `d` in `x + d` starts inside `x`. */
  predicate NoEarlyOccurrence(x: string, d: string) {
    forall j :: 0 <= j < |x| ==> !OccursAt(x + d, d, j)
  }

  /** Splitting `x + d + y` cuts at the `d` written after `x`. */
  lemma SplitAfter(x: string, d: string, y: string)
    requires |d| > 0 && NoEarlyOccurrence(x, d)
    ensures Split(x + d + y, d) == [x] + Split(y, d)
  {
    var s := x + d + y;
    assert OccursAt(s, d, |x|) by {
      assert s[|x|..|x| + |d|] == d;
    }
    forall j | 0 <= j < |x| ensures !OccursAt(s, d, j) {
      assert s[j..j + |d|] == (x + d)[j..j + |d|];
      assert !OccursAt(x + d, d, j);
    }
    assert Find(s, d) == Some(|x|);
    assert s[..|x|] == x;
    assert s[|x| + |d|..] == y;
  }

  /** A first character of the separator that `x` lacks rules out an early match. */
  lemma NoEarlyByFirstChar(x: string, d: string)
    requires |d| > 0 && d[0] !in x
    ensures NoEarlyOccurrence(x, d)
  {
    forall j | 0 <= j < |x| ensures !OccursAt(x + d, d, j) {
      assert (x + d)[j..j + |d|][0] == (x + d)[j] == x[j];
    }
  }

  /**
   * A last character of the separator that occurs neither in `x` nor earlier
   * in the separator rules out an early match.
   */
  lemma NoEarlyByLastChar(x: string, d: string)
    requires |d| > 0 && d[|d| - 1] !in x && d[|d| - 1] !in d[..|d| - 1]
    ensures NoEarlyOccurrence(x, d)
  {
    var last := |d| - 1;
    forall j | 0 <= j < |x| ensures !OccursAt(x + d, d, j) {
      var e := j + last;
      assert (x + d)[j..j + |d|][last] == (x + d)[e];
      if e < |x| {
        assert (x + d)[e] == x[e];
      } else {
        assert (x + d)[e] == d[..last][e - |x|];
      }
    }
  }

  /** A string that lacks some character of `d` does not contain `d`. */
  lemma MissingChar(s: string, d: string, k: nat)
    requires k < |d| && d[k] !in s
    ensures !Contains(s, d)
  {
    forall j | 0 <= j && j + |d| <= |s| ensures !OccursAt(s, d, j) {
      assert s[j..j + |d|][k] == s[j + k];
    }
  }

  /** A string that does not contain `d` splits into itself alone. */
  lemma SplitAbsent(s: string, d: string)
    requires |d| > 0 && !Contains(s, d)
    ensures Split(s, d) == [s]
  {
  }

  /** A string is its part before an occurrence, the separator and the rest. */
  lemma CutAt(s: string, d: string, i: nat)
    requires OccursAt(s, d, i)
    ensures s == s[..i] + d + s[i + |d|..]
  {
    assert s[i..i + |d|] == d;
  }

  /** Splitting on one character distributes over joining with it. */
  lemma {:induction false} SplitJoined(a: string, c: char, b: string)
    ensures Split(a + [c] + b, [c]) == Split(a, [c]) + Split(b, [c])
    decreases |a|
  {
    if c !in a {
      SplitJoinedAbsent(a, c, b);
    } else {
      ContainsChar(a, c);
      var i := Find(a, [c]).value;
      SplitFirstPart(a, c, i);
      SplitJoinedAt(a, c, b, i);
      SplitJoined(a[i + 1..], c, b);
      ConsAssoc(Split(a + [c] + b, [c]), Split(a, [c]), a[..i],
                Split(a[i + 1..], [c]), Split(b, [c]), Split(a[i + 1..] + [c] + b, [c]));
    }
  }

  /** The inductive step of SplitJoined: cut at the first separator of `a`. */
  lemma SplitJoinedAt(a: string, c: char, b: string, i: nat)
    requires Find(a, [c]) == Some(i)
    ensures i < |a|
    ensures Split(a + [c] + b, [c]) == [a[..i]] + Split(a[i + 1..] + [c] + b, [c])
  {
    var d, a1, a2 := [c], a[..i], a[i + 1..];
    SplitFirstPart(a, c, i);
    PrefixBeforeFirst(a, d, i);
    ContainsChar(a1, c);
    NoEarlyByFirstChar(a1, d);
    Reassociate(a, a1, a2, d, b);
    SplitAfter(a1, d, a2 + d + b);
  }

  /** Sequence bookkeeping for SplitJoined, kept apart from the string facts. */
  lemma ConsAssoc<T>(whole: seq<T>, left: seq<T>, head: T, mid: seq<T>, tail: seq<T>, rest: seq<T>)
    requires whole == [head] + rest && rest == mid + tail && left == [head] + mid
    ensures whole == left + tail
  {
  }

  /** The base case of SplitJoined: `a` holds no separator. */
  lemma SplitJoinedAbsent(a: string, c: char, b: string)
    requires c !in a
    ensures Split(a + [c] + b, [c]) == [a] + Split(b, [c])
    ensures Split(a, [c]) == [a]
  {
    ContainsChar(a, c);
    NoEarlyByFirstChar(a, [c]);
    SplitAfter(a, [c], b);
    SplitAbsent(a, [c]);
  }

  lemma Reassociate(a: string, a1: string, a2: string, d: string, b: string)
    requires a == a1 + d + a2
    ensures a + d + b == a1 + d + (a2 + d + b)
  {
  }

  /** Unfolding a split on one character at its leftmost occurrence. */
  lemma SplitFirstPart(a: string, c: char, i: nat)
    requires Find(a, [c]) == Some(i)
    ensures i < |a| && a == a[..i] + [c] + a[i + 1..]
    ensures Split(a, [c]) == [a[..i]] + Split(a[i + 1..], [c])
  {
    ContainsOccurs(a, [c], i);
    CutAt(a, [c], i);
  }

  /**
   * Splitting `x + [c] + y + rest` on `c`, where neither `x` nor `y` holds
   * `c` and `rest` is empty or starts with `c`: the first two parts are `x`
   * and `y`.
   */
  lemma SplitTwo(x: string, y: string, rest: string, c: char)
    requires c !in x && c !in y && (rest == [] || rest[0] == c)
    ensures Contains(x + [c] + y + rest, [c])
    ensures |Split(x + [c] + y + rest, [c])| >= 2
    ensures Split(x + [c] + y + rest, [c])[..2] == [x, y]
  {
    var text := x + [c] + y + rest;
    assert Contains(text, [c]) by {
      assert text[|x|] == c;
      ContainsChar(text, c);
    }
    assert Split(text, [c]) == [x] + Split(y + rest, [c]) by {
      assert text == x + [c] + (y + rest);
      NoEarlyByFirstChar(x, [c]);
      SplitAfter(x, [c], y + rest);
    }
    SplitHead(y, rest, c);
    FirstTwo(Split(text, [c]), x, y, Split(y + rest, [c]));
  }

  /** The first part of `y + rest` is `y` when `rest` is empty or starts with the separator. */
  lemma SplitHead(y: string, rest: string, c: char)
    requires c !in y && (rest == [] || rest[0] == c)
    ensures Split(y + rest, [c])[0] == y
  {
    NoEarlyByFirstChar(y, [c]);
    if rest == [] {
      assert y + rest == y;
      ContainsChar(y, c);
      SplitAbsent(y, [c]);
    } else {
      assert y + rest == y + [c] + rest[1..];
      SplitAfter(y, [c], rest[1..]);
    }
  }

  /** Sequence bookkeeping for SplitTwo, kept apart from the string facts. */
  lemma FirstTwo<T>(whole: seq<T>, a: T, b: T, rest: seq<T>)
    requires whole == [a] + rest && |rest| >= 1 && rest[0] == b
    ensures |whole| >= 2 && whole[..2] == [a, b]
  {
  }

  predicate IsDigit(c: char) {
    '0' <= c <= '9'
  }

  predicate IsDigits(s: string) {
    forall k :: 0 <= k < |s| ==> IsDigit(s[k])
  }

  /** The value of a string of decimal digits, most significant first. */
  function DigitsValue(s: string): nat
    requires IsDigits(s)
    decreases |s|
  {
    if s == [] then 0
    else 10 * DigitsValue(s[..|s| - 1]) + ((s[|s| - 1] as int) - ('0' as int))
  }

  /** Python's `str(n)` for a natural number. */
  function ShowNat(n: nat): (s: string)
    ensures |s| > 0 && IsDigits(s)
    ensures DigitsValue(s) == n
  {
    var c := (('0' as int) + n % 10) as char;
    if n < 10 then [c]
    else
      var p := ShowNat(n / 10);
      assert (p + [c])[..|p|] == p;
      p + [c]
  }

  /** Python's `str(i)`: digits, with a leading minus when negative. */
  function Show(i: int): (s: string)
    ensures |s| > 0
    ensures forall k :: 0 <= k < |s| ==> IsDigit(s[k]) || s[k] == '-'
  {
    if i < 0 then "-" + ShowNat(-i) else ShowNat(i)
  }

  /**
   * Python's `int(s)`, restricted to an optional minus sign followed by at
   * least one ASCII digit.
   */
  function ParseInt(s: string): (r: Option<int>)
    ensures r.Some? <==> (|s| > 0 && IsDigits(s)) || (|s| > 1 && s[0] == '-' && IsDigits(s[1..]))
    ensures r.Some? && s[0] != '-' ==> r.value >= 0
  {
    if |s| > 1 && s[0] == '-' && IsDigits(s[1..]) then Some(-(DigitsValue(s[1..]) as int))
    else if |s| > 0 && IsDigits(s) then Some(DigitsValue(s))
    else None
  }

  /** Python's `int(s)`: a ValueError when `s` is not a numeral. */
  function IntOf(s: string): (r: Result<int>)
    ensures r.Failure? <==> ParseInt(s).None?
    ensures r.Failure? ==> r.error == InvalidLiteral(s)
    ensures r.Success? ==> r.value == ParseInt(s).value
  {
    match ParseInt(s)
    case None => Failure(InvalidLiteral(s))
    case Some(v) => Success(v)
  }

  /** `int(str(i)) == i`. */
  lemma ParseShow(i: int)
    ensures ParseInt(Show(i)) == Some(i)
  {
    if i < 0 {
      assert Show(i)[1..] == ShowNat(-i);
    }
  }

  /** Anything that is not a digit or a minus sign makes `int()` fail. */
  lemma ParseRejects(s: string, k: nat)
    requires k < |s| && !IsDigit(s[k]) && s[k] != '-'
    ensures ParseInt(s) == None
  {
    if k > 0 {
      assert s[1..][k - 1] == s[k];
    }
  }

  /** The separators of the query language never occur in a numeral. */
  lemma ShowLacks(i: int, c: char)
    requires !IsDigit(c) && c != '-'
    ensures c !in Show(i)
  {
  }

  /** None of the punctuation of the coordinate and query syntax occurs in a numeral. */
  lemma ShowOmits(i: int)
    ensures ',' !in Show(i) && ':' !in Show(i) && '$' !in Show(i)
    ensures '%' !in Show(i) && '#' !in Show(i) && '>' !in Show(i) && '<' !in Show(i)
  {
  }
}
