/** Python's `sorted(...)` over names and `sorted(set(...))` over ids. */
module Sorting {
  import opened Strings

  /** Strictly ascending in Python's string order: sorted, no repeats. */
  predicate Ascending(s: seq<string>)
  {
    forall i, j :: 0 <= i < j < |s| ==> LexLe(s[i], s[j]) && s[i] != s[j]
  }

  /** Inserts `x` into an ascending sequence, unless it is already there. */
  function InsertUnique(x: string, s: seq<string>): (r: seq<string>)
    requires Ascending(s)
    ensures Ascending(r)
    ensures forall y :: y in r <==> y == x || y in s
  {
    if |s| == 0 then [x]
    else if x == s[0] then s
    else if LexLe(x, s[0]) then
      assert forall j :: 0 <= j < |s| ==> LexLe(x, s[j]) && x != s[j] by {
        forall j | 0 <= j < |s| ensures LexLe(x, s[j]) && x != s[j] {
          if j > 0 {
            LexLeTransitive(x, s[0], s[j]);
            if x == s[j] {
              LexLeAntisymmetric(x, s[0]);
            }
          }
        }
      }
      [x] + s
    else
      LexLeTotal(x, s[0]);
      var rest := InsertUnique(x, s[1..]);
      var r := [s[0]] + rest;
      assert Ascending(r) by {
        forall i, j | 0 <= i < j < |r| ensures LexLe(r[i], r[j]) && r[i] != r[j] {
          assert r[j] == rest[j - 1];
          if i == 0 {
            assert rest[j - 1] in rest;
            if rest[j - 1] != x {
              var k :| 1 <= k < |s| && s[k] == rest[j - 1];
            }
          } else {
            assert r[i] == rest[i - 1];
          }
        }
      }
      r
  }

  /**
   * The distinct elements of `s` in ascending order: `sorted(set(s))`, and
   * also `sorted(s)` whenever `s` has no repeats (names in one directory).
   */
  function SortUnique(s: seq<string>): (r: seq<string>)
    ensures Ascending(r)
    ensures forall y :: y in r <==> y in s
  {
    if |s| == 0 then []
    else
      var front := s[..|s| - 1];
      assert forall y :: y in s <==> y in front || y == s[|s| - 1] by {
        assert s == front + [s[|s| - 1]];
      }
      InsertUnique(s[|s| - 1], SortUnique(front))
  }

  /** An ascending sequence holds each element once, so `|r|` counts the distinct inputs. */
  lemma {:induction false} AscendingIsDistinct(r: seq<string>)
    requires Ascending(r)
    ensures |r| == |set y | y in r|
    decreases |r|
  {
    if |r| > 0 {
      var tail := r[1..];
      AscendingIsDistinct(tail);
      assert (set y | y in r) == {r[0]} + (set y | y in tail) by {
        assert r == [r[0]] + tail;
      }
      assert r[0] !in tail;
    }
  }
}
