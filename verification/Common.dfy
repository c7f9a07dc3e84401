/** Small shared vocabulary: optional values, results with an error, and the
    table idiom used by every storage model (a table is the sequence of its
    rows in insertion order, so an insert is an append). */
module Common {

  datatype Option<+T> = None | Some(value: T) {
    function GetOr(default: T): T {
      if Some? then value else default
    }
  }

  datatype Result<+T, +E> = Ok(value: T) | Err(error: E)

  /** The elements of a sequence, as a set. */
  function Elements<T>(s: seq<T>): set<T> {
    set x | x in s
  }

  ghost predicate Distinct<T>(s: seq<T>) {
    forall i, j :: 0 <= i < j < |s| ==> s[i] != s[j]
  }

  lemma {:induction false} DistinctCounts<T>(s: seq<T>, x: T)
    requires Distinct(s)
    ensures multiset(s)[x] <= 1
  {
    if s != [] {
      DistinctCounts(s[1..], x);
      assert s == [s[0]] + s[1..];
      assert s[0] !in s[1..];
    }
  }

  lemma WithoutOne<T>(b: seq<T>, i: nat)
    requires i < |b|
    ensures b == b[..i] + [b[i]] + b[i + 1..]
    ensures multiset(b[..i] + b[i + 1..]) == multiset(b) - multiset{b[i]}
  {
    assert b == b[..i] + [b[i]] + b[i + 1..];
  }

  /** Where the last element of `a` stands in a permutation of it. */
  lemma LastPlace<T>(a: seq<T>, b: seq<T>) returns (i: nat)
    requires a != [] && multiset(a) == multiset(b)
    ensures i < |b| && b[i] == Last(a) && b == b[..i] + [b[i]] + b[i + 1..]
    ensures multiset(a[..|a| - 1]) == multiset(b[..i] + b[i + 1..])
  {
    assert Last(a) in multiset(b);
    i :| 0 <= i < |b| && b[i] == Last(a);
    WithoutOne(b, i);
    assert a == a[..|a| - 1] + [Last(a)];
  }

  /** A set of places that may gain one more. */
  lemma OnePlaceMore(before: set<int>, after: set<int>, place: int, hit: bool)
    requires place !in before && after == if hit then before + {place} else before
    ensures |after| == |before| + if hit then 1 else 0
  {
  }

  function Last<T>(s: seq<T>): T
    requires |s| > 0
  {
    s[|s| - 1]
  }

  /** ASCII case folding, the model of `str.lower`. */
  function LowerChar(c: char): char {
    if 'A' <= c <= 'Z' then (c as int + 32) as char else c
  }

  function Lower(s: string): string {
    seq(|s|, i requires 0 <= i < |s| => LowerChar(s[i]))
  }

  function UpperChar(c: char): char {
    if 'a' <= c <= 'z' then (c as int - 32) as char else c
  }

  function Upper(s: string): string {
    seq(|s|, i requires 0 <= i < |s| => UpperChar(s[i]))
  }

  predicate IsSpace(c: char) {
    c in " \t\n\r"
  }

  /** `str.strip`. */
  function Strip(s: string): string {
    if s == "" then ""
    else if IsSpace(s[0]) then Strip(s[1..])
    else if IsSpace(Last(s)) then Strip(s[..|s| - 1])
    else s
  }

  /** What `Strip` leaves: everything from the first to the last character that is not a
      space. */
  lemma {:induction false} StripExactly(s: string) returns (i: nat, j: nat)
    ensures i <= j <= |s| && Strip(s) == s[i..j]
    ensures forall k :: 0 <= k < i || j <= k < |s| ==> s[k] in {' ', '\t', '\n', '\r'}
    ensures i < j ==> s[i] !in {' ', '\t', '\n', '\r'} && s[j - 1] !in {' ', '\t', '\n', '\r'}
  {
    i, j := 0, |s|;
    if s != "" && IsSpace(s[0]) {
      i, j := StripExactly(s[1..]);
      assert Strip(s) == s[1..][i..j] == s[i + 1..j + 1];
      i, j := i + 1, j + 1;
    } else if s != "" && IsSpace(Last(s)) {
      i, j := StripExactly(s[..|s| - 1]);
      assert Strip(s) == s[..|s| - 1][i..j] == s[i..j];
    }
  }

  /** Case folding touches the twenty-six letters only. */
  lemma FoldsLetters(c: char)
    ensures LowerChar(c) != c <==> 'A' <= c <= 'Z'
    ensures UpperChar(c) != c <==> 'a' <= c <= 'z'
    ensures 'A' <= c <= 'Z' ==> 'a' <= LowerChar(c) <= 'z' && UpperChar(LowerChar(c)) == c
    ensures 'a' <= c <= 'z' ==> 'A' <= UpperChar(c) <= 'Z' && LowerChar(UpperChar(c)) == c
  {
  }

  lemma FoldsEach(s: string)
    ensures |Lower(s)| == |Upper(s)| == |s|
    ensures forall i :: 0 <= i < |s| ==> Lower(s)[i] == LowerChar(s[i]) && Upper(s)[i] == UpperChar(s[i])
  {
  }

  function MaxReal(a: real, b: real): real {
    if a >= b then a else b
  }

  function MinReal(a: real, b: real): real {
    if a <= b then a else b
  }
}
