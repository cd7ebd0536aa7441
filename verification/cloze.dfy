/** Detection of Anki cloze deletions, the search `{{c\d+::[\s\S]+?}}` of
    `ANKI_CLOZE_REGEXP` / `has_clozes` (markdown_anki_decks/cli.py). */
module Cloze {

  predicate IsDigit(c: char)
  {
    '0' <= c <= '9'
  }

  /** The pattern occurs at `i`: `{{c` at `i`, digits on `[i+3, p)` (at least one),
      `::` at `p`, a body of at least one arbitrary character on `[p+2, q)`, and `}}` at `q`. */
  ghost predicate ClozeMatch(t: string, i: int, p: int, q: int)
  {
    && 0 <= i && i + 3 < p && p + 2 < q && q + 2 <= |t|
    && t[i..i + 3] == "{{c"
    && (forall k :: i + 3 <= k < p ==> IsDigit(t[k]))
    && t[p..p + 2] == "::"
    && ClosesAt(t, q)
  }

  /** `}}` starts at `q`. */
  predicate ClosesAt(t: string, q: int)
  {
    0 <= q && q + 2 <= |t| && t[q..q + 2] == "}}"
  }

  /** Some substring of `t` matches the cloze pattern. */
  ghost predicate MatchesSomewhere(t: string)
  {
    exists i, p, q :: ClozeMatch(t, i, p, q)
  }

  /** End of the maximal run of digits starting at `k`. */
  function DigitsEnd(t: string, k: nat): (e: nat)
    requires k <= |t|
    ensures k <= e <= |t|
    ensures forall j :: k <= j < e ==> IsDigit(t[j])
    ensures e < |t| ==> !IsDigit(t[e])
    decreases |t| - k
  {
    if k < |t| && IsDigit(t[k]) then DigitsEnd(t, k + 1) else k
  }

  /** `}}` starts at some position `q >= k`. */
  function ClosesFrom(t: string, k: nat): (r: bool)
    ensures r <==> exists q :: k <= q && ClosesAt(t, q)
    decreases |t| - k
  {
    if k + 2 > |t| then false
    else ClosesAt(t, k) || ClosesFrom(t, k + 1)
  }

  /** The regular expression matches starting exactly at `i`. Because `:` is not a
      digit, `\d+` can only stop at the end of the digit run, so no backtracking is needed. */
  function MatchesAt(t: string, i: nat): (r: bool)
    ensures r <==> exists p, q :: ClozeMatch(t, i, p, q)
  {
    if i + 3 > |t| || t[i..i + 3] != "{{c" then
      assert forall p, q :: !ClozeMatch(t, i, p, q);
      false
    else
      var p := DigitsEnd(t, i + 3);
      assert forall p', q :: ClozeMatch(t, i, p', q) ==> p' == p by {
        forall p', q | ClozeMatch(t, i, p', q) ensures p' == p {
          assert t[p'] == t[p'..p' + 2][0];
        }
      }
      if p == i + 3 || p + 2 > |t| || t[p..p + 2] != "::" then false
      else
        var r := ClosesFrom(t, p + 3);
        assert r ==> exists q :: ClozeMatch(t, i, p, q) by {
          if r {
            var q :| p + 3 <= q && ClosesAt(t, q);
            assert ClozeMatch(t, i, p, q);
          }
        }
        r
  }

  /** The pattern matches at some position `j >= i`. */
  function MatchesFrom(t: string, i: nat): (r: bool)
    ensures r <==> exists j, p, q :: i <= j && ClozeMatch(t, j, p, q)
    decreases |t| - i
  {
    if i >= |t| then
      assert forall j, p, q :: i <= j ==> !ClozeMatch(t, j, p, q);
      false
    else
      var here := MatchesAt(t, i);
      var later := MatchesFrom(t, i + 1);
      assert (exists j, p, q :: i <= j && ClozeMatch(t, j, p, q)) ==> here || later by {
        if exists j, p, q :: i <= j && ClozeMatch(t, j, p, q) {
          var j, p, q :| i <= j && ClozeMatch(t, j, p, q);
          if j == i { assert here; } else { assert later; }
        }
      }
      here || later
  }

  /** `has_clozes`: the text holds at least one cloze deletion. */
  function HasClozes(t: string): (r: bool)
    ensures r <==> MatchesSomewhere(t)
  {
    MatchesFrom(t, 0)
  }

  /** The smallest cloze is recognised. */
  lemma SimpleClozeMatches()
    ensures HasClozes("{{c1::x}}")
  {
    assert ClozeMatch("{{c1::x}}", 0, 4, 7);
  }

  /** A cloze needs at least one digit after `c`. */
  lemma ClozeNeedsNumber()
    ensures !HasClozes("{{c::x}}")
  {
    var t := "{{c::x}}";
    forall i, p, q | ClozeMatch(t, i, p, q) ensures false {
    }
  }

  /** A cloze needs a non-empty body. */
  lemma ClozeNeedsBody()
    ensures !HasClozes("{{c1::}}")
  {
    var t := "{{c1::}}";
    forall i, p, q | ClozeMatch(t, i, p, q) ensures false {
    }
  }

  /** Surrounding text never hides a cloze: a match inside `t` survives any context. */
  lemma ClozeSurvivesContext(a: string, t: string, b: string)
    requires HasClozes(t)
    ensures HasClozes(a + t + b)
  {
    var i, p, q :| ClozeMatch(t, i, p, q);
    MatchInContext(a, t, b, i, p, q);
  }

  lemma MatchInContext(a: string, t: string, b: string, i: int, p: int, q: int)
    requires ClozeMatch(t, i, p, q)
    ensures ClozeMatch(a + t + b, i + |a|, p + |a|, q + |a|)
  {
    var u := a + t + b;
    var d := |a|;
    assert forall k :: 0 <= k < |t| ==> u[k + d] == t[k];
    SliceInContext(a, t, b, i, 3);
    SliceInContext(a, t, b, p, 2);
    SliceInContext(a, t, b, q, 2);
  }

  lemma SliceInContext(a: string, t: string, b: string, k: nat, n: nat)
    requires k + n <= |t|
    ensures (a + t + b)[|a| + k..|a| + k + n] == t[k..k + n]
  {
  }
}
