/** The two C library string functions the system relies on: `strcmp`, which
    orders names for sorting, and `strstr`, which the search uses for
    substring containment. Strings are NUL-free `seq<char>`; characters are
    compared by code point, which agrees with the unsigned byte order of
    their UTF-8 encoding. */
module CStrings {
  import opened Records

  /** `strcmp` reduced to its sign. Walking both strings together, the first
      differing character decides; when one string runs out first it is the
      smaller, since its terminating NUL is below every character. */
  function StrCmp(a: string, b: string): (r: int)
    ensures -1 <= r <= 1
    ensures r == 0 <==> a == b
  {
    if |a| == 0 && |b| == 0 then 0
    else if |a| == 0 then -1
    else if |b| == 0 then 1
    else if a[0] < b[0] then -1
    else if a[0] > b[0] then 1
    else
      assert a == [a[0]] + a[1..] && b == [b[0]] + b[1..];
      StrCmp(a[1..], b[1..])
  }

  /** Reference definition of the lexicographic order: `a` is a proper prefix
      of `b`, or at the first position where they differ `a` has the smaller
      character. */
  predicate LexLess(a: string, b: string) {
    (|a| < |b| && a == b[..|a|]) ||
    exists k :: 0 <= k < |a| && k < |b| && a[..k] == b[..k] && a[k] < b[k]
  }

  /** `strcmp(a, b) < 0` holds exactly when `a` precedes `b` lexicographically. */
  lemma {:induction false} StrCmpIsLexLess(a: string, b: string)
    ensures StrCmp(a, b) < 0 <==> LexLess(a, b)
    decreases |a|
  {
    if |a| == 0 && |b| == 0 {
    } else if |a| == 0 {
      assert a == b[..0];
    } else if |b| == 0 {
    } else if a[0] < b[0] {
      assert a[..0] == b[..0];
    } else if a[0] > b[0] {
    } else {
      StrCmpIsLexLess(a[1..], b[1..]);
      if LexLess(a[1..], b[1..]) {
        if |a[1..]| < |b[1..]| && a[1..] == b[1..][..|a[1..]|] {
          assert a == [a[0]] + a[1..] && b[..|a|] == [b[0]] + b[1..][..|a[1..]|];
        } else {
          var k :| 0 <= k < |a[1..]| && k < |b[1..]| && a[1..][..k] == b[1..][..k] && a[1..][k] < b[1..][k];
          assert a[..k + 1] == [a[0]] + a[1..][..k];
          assert b[..k + 1] == [b[0]] + b[1..][..k];
          assert a[k + 1] < b[k + 1];
        }
      }
      if LexLess(a, b) {
        if |a| < |b| && a == b[..|a|] {
          assert a[1..] == b[..|a|][1..];
          assert b[..|a|][1..] == b[1..][..|a[1..]|];
        } else {
          var k :| 0 <= k < |a| && k < |b| && a[..k] == b[..k] && a[k] < b[k];
          assert k > 0;
          assert a[1..][..k - 1] == a[..k][1..] == b[..k][1..] == b[1..][..k - 1];
          assert a[1..][k - 1] < b[1..][k - 1];
        }
      }
    }
  }

  /** Swapping the arguments of `strcmp` flips its sign. */
  lemma {:induction false} StrCmpAntisymmetric(a: string, b: string)
    ensures StrCmp(b, a) == -StrCmp(a, b)
    decreases |a|
  {
    if |a| > 0 && |b| > 0 && a[0] == b[0] {
      StrCmpAntisymmetric(a[1..], b[1..]);
    }
  }

  /** The order `strcmp(a, b) <= 0` is transitive. */
  lemma {:induction false} StrCmpTransitive(a: string, b: string, c: string)
    requires StrCmp(a, b) <= 0 && StrCmp(b, c) <= 0
    ensures StrCmp(a, c) <= 0
    decreases |a|
  {
    if |a| > 0 && |b| > 0 && |c| > 0 && a[0] == b[0] && b[0] == c[0] {
      StrCmpTransitive(a[1..], b[1..], c[1..]);
    }
  }

  /** `needle` occurs in `hay` starting at position `i`. */
  predicate OccursAt(needle: string, hay: string, i: int) {
    0 <= i && i + |needle| <= |hay| && hay[i..i + |needle|] == needle
  }

  /** `strstr(hay, needle) != NULL`: `needle` is a substring of `hay`. */
  predicate Contains(hay: string, needle: string) {
    exists i | 0 <= i <= |hay| :: OccursAt(needle, hay, i)
  }

  /** `strstr`: the first position at which `needle` occurs in `hay`, or
      `None` for a NULL return. An empty needle is found at position 0. */
  function StrStr(hay: string, needle: string): (r: Option<nat>)
    ensures r.Some? ==> OccursAt(needle, hay, r.value)
    ensures r.Some? ==> forall i :: 0 <= i < r.value ==> !OccursAt(needle, hay, i)
    ensures r.None? <==> !Contains(hay, needle)
    decreases |hay|
  {
    if |needle| <= |hay| && hay[..|needle|] == needle then
      assert OccursAt(needle, hay, 0);
      Some(0)
    else if |hay| == 0 then
      None
    else
      var rest := StrStr(hay[1..], needle);
      ShiftOccurrence(needle, hay);
      match rest
      case None => None
      case Some(i) => Some(i + 1)
  }

  /** Occurrences at positions past the first are occurrences in the tail. */
  lemma ShiftOccurrence(needle: string, hay: string)
    requires |hay| > 0
    ensures forall i :: 1 <= i ==> (OccursAt(needle, hay, i) <==> OccursAt(needle, hay[1..], i - 1))
  {
    forall i | 1 <= i
      ensures OccursAt(needle, hay, i) <==> OccursAt(needle, hay[1..], i - 1)
    {
      if i + |needle| <= |hay| {
        var whole, tail := hay[i..i + |needle|], hay[1..][i - 1..i - 1 + |needle|];
        assert forall j :: 0 <= j < |whole| ==> whole[j] == tail[j];
        assert whole == tail;
      }
    }
  }
}
