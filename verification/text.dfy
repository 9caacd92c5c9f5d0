/** String handling the controllers rely on: `String.prototype.trim`, the
    "missing or blank" test, the `(x && x.trim()) || fallback` merge idiom,
    and the case-insensitive search of the video listing. */
module Text {
  import opened Base

  /** The characters `trim` strips: ECMAScript WhiteSpace and
      LineTerminator. */
  predicate IsSpace(c: char) {
    || c == ' ' || c == '\t' || c == '\n' || c == '\r'
    || c == '\U{000B}' || c == '\U{000C}' || c == '\U{00A0}' || c == '\U{1680}'
    || ('\U{2000}' <= c <= '\U{200A}')
    || c == '\U{2028}' || c == '\U{2029}' || c == '\U{202F}' || c == '\U{205F}'
    || c == '\U{3000}' || c == '\U{FEFF}'
  }

  predicate AllSpace(s: string) {
    forall k :: 0 <= k < |s| ==> IsSpace(s[k])
  }

  /** The index of the first non-whitespace character of `s` at or after
      `i`, or `|s|` when there is none. */
  function FirstNonSpace(s: string, i: nat): (r: nat)
    requires i <= |s|
    ensures i <= r <= |s|
    ensures forall k :: i <= k < r ==> IsSpace(s[k])
    ensures r == |s| || !IsSpace(s[r])
    decreases |s| - i
  {
    if i == |s| || !IsSpace(s[i]) then i else FirstNonSpace(s, i + 1)
  }

  /** The index just past the last non-whitespace character of `s` before
      `j`, or 0 when there is none. */
  function EndOfText(s: string, j: nat): (r: nat)
    requires j <= |s|
    ensures r <= j
    ensures forall k :: r <= k < j ==> IsSpace(s[k])
    ensures r == 0 || !IsSpace(s[r - 1])
  {
    if j == 0 || !IsSpace(s[j - 1]) then j else EndOfText(s, j - 1)
  }

  /** Non-empty, and neither starting nor ending with whitespace. */
  predicate Trimmed(t: string) {
    t != [] && !IsSpace(t[0]) && !IsSpace(t[|t| - 1])
  }

  /** `r` is the piece of `s` starting at `i`, with nothing but whitespace
      before and after it. */
  predicate CutFrom(s: string, r: string, i: int) {
    && 0 <= i <= |s| - |r|
    && (forall k :: 0 <= k < |r| ==> r[k] == s[i + k])
    && (forall k :: 0 <= k < i ==> IsSpace(s[k]))
    && (forall k :: i + |r| <= k < |s| ==> IsSpace(s[k]))
  }

  /** `String.prototype.trim`: the piece of `s` left once the whitespace at
      both ends is cut off. */
  function Trim(s: string): (r: string)
    ensures |r| <= |s|
    ensures r == [] || Trimmed(r)
    ensures exists i :: CutFrom(s, r, i)
  {
    var i := FirstNonSpace(s, 0);
    var j := EndOfText(s, |s|);
    if j <= i then
      assert CutFrom(s, [], i);
      []
    else
      var r := s[i..j];
      assert CutFrom(s, r, i);
      r
  }

  /** The "missing content" test `x.trim() === ""`. */
  predicate Blank(s: string) {
    Trim(s) == ""
  }

  /** A string is blank exactly when every character of it is whitespace. */
  lemma BlankIffAllSpace(s: string)
    ensures Blank(s) <==> AllSpace(s)
  {
    var r := Trim(s);
    var i :| CutFrom(s, r, i);
    if r != [] {
      assert s[i] == r[0] && !IsSpace(s[i]);
    }
  }

  /** Two cuts of the same string down to trimmed pieces cut out the same
      piece. */
  lemma CutsAgree(s: string, r1: string, i1: int, r2: string, i2: int)
    requires CutFrom(s, r1, i1) && CutFrom(s, r2, i2)
    requires Trimmed(r1) && Trimmed(r2)
    ensures r1 == r2
  {
    assert s[i1] == r1[0] && s[i2] == r2[0];
    assert i1 == i2;
    assert s[i1 + |r1| - 1] == r1[|r1| - 1] && s[i2 + |r2| - 1] == r2[|r2| - 1];
    assert |r1| == |r2|;
    assert forall k :: 0 <= k < |r1| ==> r1[k] == s[i1 + k] == r2[k];
  }

  /** The contract of `Trim` pins it down: a string that is whitespace, then
      a trimmed piece or nothing, then whitespace, trims to that piece. */
  lemma TrimIsUnique(w1: string, t: string, w2: string)
    requires AllSpace(w1) && AllSpace(w2) && (t == [] || Trimmed(t))
    ensures Trim(w1 + t + w2) == t
  {
    var s := w1 + t + w2;
    var a := |w1|;
    assert CutFrom(s, t, a) by {
      assert forall k :: 0 <= k < a ==> s[k] == w1[k];
      assert forall k :: 0 <= k < |t| ==> s[a + k] == t[k];
      assert forall k :: a + |t| <= k < |s| ==> s[k] == w2[k - a - |t|];
    }
    BlankIffAllSpace(s);
    if t == [] {
      assert AllSpace(s);
    } else {
      assert s[a] == t[0] && !IsSpace(s[a]);
      var r := Trim(s);
      var i :| CutFrom(s, r, i);
      CutsAgree(s, r, i, t, a);
    }
  }

  /** The field test `!x || x.trim() === ""` of the create handlers. */
  predicate MissingOrBlank(x: Option<string>) {
    !Truthy(x) || Blank(x.value)
  }

  /** The merge idiom `(x && x.trim()) || fallback`: the trimmed new value
      when it is present and not blank, the fallback otherwise. */
  function TrimmedOr(x: Option<string>, fallback: Option<string>): (r: Option<string>)
    ensures !MissingOrBlank(x) ==> r == Some(Trim(x.value)) && Trim(x.value) != ""
    ensures MissingOrBlank(x) ==> r == fallback
  {
    if Truthy(x) && Trim(x.value) != "" then Some(Trim(x.value)) else fallback
  }

  /** The merge idiom with a field's old value as fallback: the update
      replaces the field only with a present, non-blank new value. */
  function MergeField(x: Option<string>, prev: string): (r: string)
    ensures !MissingOrBlank(x) ==> r == Trim(x.value) && r != ""
    ensures MissingOrBlank(x) ==> r == prev
  {
    TrimmedOr(x, Some(prev)).GetOr(prev)
  }

  /** ASCII lower-casing, the case folding of the `i` search option. */
  function LowerChar(c: char): char {
    if 'A' <= c <= 'Z' then (c as int + 32) as char else c
  }

  function Lower(s: string): (r: string)
    ensures |r| == |s|
  {
    seq(|s|, k requires 0 <= k < |s| => LowerChar(s[k]))
  }

  /** `q` occurs in `t` starting at position `i`. */
  predicate OccursAt(q: string, t: string, i: int) {
    0 <= i <= |t| - |q| && t[i..i + |q|] == q
  }

  /** `q` occurs in `t` as a contiguous piece. */
  predicate IsInfix(q: string, t: string) {
    exists i :: 0 <= i <= |t| - |q| && OccursAt(q, t, i)
  }

  /** The `$regex` search with option `i`, read as a case-insensitive
      substring test. */
  predicate ContainsIgnoringCase(t: string, q: string) {
    IsInfix(Lower(q), Lower(t))
  }

  lemma LowerIdempotent(s: string)
    ensures Lower(Lower(s)) == Lower(s)
  {
  }

  /** Folding the case of the query first does not change what the search
      finds. */
  lemma ContainsIgnoringCaseOfLower(t: string, q: string)
    ensures ContainsIgnoringCase(t, q) <==> ContainsIgnoringCase(t, Lower(q))
  {
    LowerIdempotent(q);
  }

  /** A query that occurs verbatim in the text is found, whatever case
      either is in. */
  lemma InfixIsFound(q: string, t: string)
    requires IsInfix(q, t)
    ensures ContainsIgnoringCase(t, q)
  {
    var i :| 0 <= i <= |t| - |q| && OccursAt(q, t, i);
    assert Lower(t)[i..i + |q|] == Lower(q);
    assert OccursAt(Lower(q), Lower(t), i);
  }
}
