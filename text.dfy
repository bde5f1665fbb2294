/** String helpers the search box relies on: lower-casing (JavaScript's
    `toLowerCase`, restricted to ASCII letters) and the substring test
    behind `contains` (JavaScript's `String.prototype.includes`). */
module Text {

  predicate IsUpper(c: char) {
    'A' <= c <= 'Z'
  }

  /** Lower-cases one character; only the ASCII letters A-Z are affected. */
  function LowerChar(c: char): (r: char)
    ensures !IsUpper(r)
    ensures IsUpper(c) ==> r as int == c as int + 32
    ensures !IsUpper(c) ==> r == c
  {
    if IsUpper(c) then (c as int - 'A' as int + 'a' as int) as char else c
  }

  /** `s.toLowerCase()`, character by character. */
  function Lower(s: string): (r: string)
    ensures |r| == |s|
    ensures forall i :: 0 <= i < |s| ==> r[i] == LowerChar(s[i])
  {
    if s == [] then [] else [LowerChar(s[0])] + Lower(s[1..])
  }

  /** Lower-casing twice is lower-casing once. */
  lemma LowerIdempotent(s: string)
    ensures Lower(Lower(s)) == Lower(s)
  {
    var once := Lower(s);
    assert forall i :: 0 <= i < |once| ==> Lower(once)[i] == once[i];
  }

  /** `q` occurs in `s` starting at position `i`. */
  ghost predicate OccursAt(s: string, q: string, i: int) {
    0 <= i && i + |q| <= |s| && s[i..i + |q|] == q
  }

  /** `s.includes(q)`: scan `s` from the left for a position where `q` is a
      prefix. A query is never found in a string shorter than itself. */
  predicate Contains(s: string, q: string)
    ensures q == "" ==> Contains(s, q)
    ensures Contains(s, q) ==> |q| <= |s|
    decreases |s|
  {
    if q <= s then true
    else if s == [] then false
    else Contains(s[1..], q)
  }

  /** An occurrence at position 0 is a prefix. */
  lemma OccursAtStart(s: string, q: string)
    ensures OccursAt(s, q, 0) <==> q <= s
  {
  }

  /** Occurrences in the tail of `s` are the occurrences in `s` one position on. */
  lemma OccursInTail(s: string, q: string, i: nat)
    requires s != []
    ensures OccursAt(s[1..], q, i) <==> OccursAt(s, q, i + 1)
  {
    if i + |q| <= |s[1..]| {
      assert s[1..][i..i + |q|] == s[i + 1..i + 1 + |q|];
    }
  }

  /** `Contains` is exactly the contiguous-substring relation. */
  lemma {:induction false} ContainsIff(s: string, q: string)
    ensures Contains(s, q) <==> exists i :: OccursAt(s, q, i)
    decreases |s|
  {
    OccursAtStart(s, q);
    if q <= s {
      assert OccursAt(s, q, 0);
    } else if s != [] {
      ContainsIff(s[1..], q);
      if Contains(s, q) {
        var i :| OccursAt(s[1..], q, i);
        OccursInTail(s, q, i);
        assert OccursAt(s, q, i + 1);
      } else {
        forall i | 0 < i
          ensures !OccursAt(s, q, i)
        {
          OccursInTail(s, q, i - 1);
        }
      }
    }
  }

  /** The empty query occurs in every string. */
  lemma ContainsEmpty(s: string)
    ensures Contains(s, "")
  {
  }

  /** A non-empty query whose first character does not appear in the string
      never occurs in it. */
  lemma {:induction false} ContainsNeedsFirstChar(s: string, q: string)
    requires q != [] && q[0] !in s
    ensures !Contains(s, q)
    decreases |s|
  {
    if s != [] {
      assert s[0] != q[0];
      ContainsNeedsFirstChar(s[1..], q);
    }
  }
}
