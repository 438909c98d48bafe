/**
 * `find_matching_brace`: from a start position, count `{` up and `}` down and
 * return the first `}` at which the running count comes back to zero, or -1.
 */
module Braces {

  /** The change a character makes to the brace count. */
  function Delta(c: char): int {
    if c == '{' then 1 else if c == '}' then -1 else 0
  }

  /** Number of `{` minus number of `}` in `s`. */
  function Balance(s: seq<char>): int {
    if s == [] then 0 else Balance(s[..|s| - 1]) + Delta(s[|s| - 1])
  }

  /** Position `j` holds a `}` and the text from `start` through `j` is balanced. */
  predicate ClosesAt(content: string, start: nat, j: int) {
    start <= j < |content| && content[j] == '}' && Balance(content[start..j + 1]) == 0
  }

  /** The scan from position `i` with running count `depth`. */
  function ScanFrom(content: string, i: nat, depth: int): (r: int)
    ensures r == -1 || (i <= r < |content| && content[r] == '}')
    decreases |content| - i
  {
    if i >= |content| then -1
    else if content[i] == '{' then ScanFrom(content, i + 1, depth + 1)
    else if content[i] == '}' then
      (if depth - 1 == 0 then i else ScanFrom(content, i + 1, depth - 1))
    else ScanFrom(content, i + 1, depth)
  }

  /** The value `find_matching_brace(content, start)` returns. */
  function MatchingBrace(content: string, start: nat): (r: int)
    ensures r == -1 || (start <= r < |content| && content[r] == '}')
  {
    ScanFrom(content, start, 0)
  }

  lemma BalanceSnoc(content: string, start: nat, i: nat)
    requires start <= i < |content|
    ensures Balance(content[start..i + 1]) == Balance(content[start..i]) + Delta(content[i])
  {
    assert content[start..i + 1][..i - start] == content[start..i];
  }

  lemma {:induction false} ScanFromIsFirstClose(content: string, start: nat, i: nat, depth: int)
    requires start <= i <= |content|
    requires depth == Balance(content[start..i])
    requires forall j :: start <= j < i ==> !ClosesAt(content, start, j)
    ensures var r := ScanFrom(content, i, depth);
      if r == -1 then forall j :: start <= j < |content| ==> !ClosesAt(content, start, j)
      else ClosesAt(content, start, r) && forall j :: start <= j < r ==> !ClosesAt(content, start, j)
    decreases |content| - i
  {
    if i < |content| {
      BalanceSnoc(content, start, i);
      if content[i] == '}' && depth - 1 == 0 {
        assert ClosesAt(content, start, i);
      } else {
        assert !ClosesAt(content, start, i);
        ScanFromIsFirstClose(content, start, i + 1, depth + Delta(content[i]));
      }
    }
  }

  /**
   * The matched position is the first `}` after `start` at which the brace
   * count over `content[start..]` returns to zero, and -1 exactly when there is none.
   */
  lemma MatchingBraceIsFirstClose(content: string, start: nat)
    ensures var r := MatchingBrace(content, start);
      if r == -1 then forall j :: start <= j < |content| ==> !ClosesAt(content, start, j)
      else ClosesAt(content, start, r) && forall j :: start <= j < r ==> !ClosesAt(content, start, j)
  {
    if start <= |content| {
      assert content[start..start] == [];
      ScanFromIsFirstClose(content, start, start, 0);
    }
  }

  method FindMatchingBrace(content: string, start: nat) returns (r: int)
    ensures r == MatchingBrace(content, start)
    ensures r == -1 <==> forall j :: start <= j < |content| ==> !ClosesAt(content, start, j)
    ensures r != -1 ==> ClosesAt(content, start, r) && forall j :: start <= j < r ==> !ClosesAt(content, start, j)
  {
    MatchingBraceIsFirstClose(content, start);
    var stack := 0;
    var i := start;
    while i < |content|
      invariant start <= i
      invariant ScanFrom(content, i, stack) == MatchingBrace(content, start)
      decreases |content| - i
    {
      if content[i] == '{' {
        stack := stack + 1;
      } else if content[i] == '}' {
        stack := stack - 1;
        if stack == 0 {
          return i;
        }
      }
      i := i + 1;
    }
    return -1;
  }
}
