/**
 The label allocator of the window switcher: a cursor walking a fixed
 alphabet of single-character labels, handing each one out once.
 */
module Labels {
  import opened Wrappers

  /** Labels in assignment order (left hand only, Dvorak layout). */
  const Letters: string := "UEIOA.PYJK"

  /** No element of `s` occurs twice. */
  predicate Distinct<T(==)>(s: seq<T>) {
    forall i, j | 0 <= i < j < |s| :: s[i] != s[j]
  }

  lemma LettersDistinct()
    ensures |Letters| == 10
    ensures Distinct(Letters)
  {
  }

  /** The allocator's state: how many labels have been handed out. */
  datatype Allocator = Allocator(counter: nat)

  /** The state at program start (the class-level counter is 0). */
  const Fresh: Allocator := Allocator(0)

  /** An allocator state that a run starting from `Fresh` can reach. */
  predicate Reachable(a: Allocator) {
    a.counter <= |Letters|
  }

  /**
   Hands out the label under the cursor and advances the cursor; once the
   alphabet is used up, answers None and leaves the state as it is.
   */
  function NewLabel(a: Allocator): (r: (Option<char>, Allocator))
    ensures Reachable(a) ==> Reachable(r.1)
    ensures r.0.Some? <==> a.counter < |Letters|
    ensures r.0.Some? ==> r.0.value == Letters[a.counter] && r.1.counter == a.counter + 1
    ensures r.0.None? ==> r.1 == a
  {
    if |Letters| <= a.counter then (None, a)
    else (Some(Letters[a.counter]), Allocator(a.counter + 1))
  }

  /**
   The answers of `n` successive calls of NewLabel starting from `a`, and
   the final state: the letters from the cursor on, then None once the
   alphabet is used up; the cursor stops at the alphabet's length.
   */
  function Issue(a: Allocator, n: nat): (r: (seq<Option<char>>, Allocator))
    ensures |r.0| == n
    ensures forall i | 0 <= i < n ::
              r.0[i] == if a.counter + i < |Letters| then Some(Letters[a.counter + i]) else None
    ensures r.1.counter == if |Letters| <= a.counter then a.counter
                           else if a.counter + n < |Letters| then a.counter + n else |Letters|
    decreases n
  {
    if n == 0 then ([], a)
    else
      var (l, a') := NewLabel(a);
      var (rest, final) := Issue(a', n - 1);
      assert forall i | 1 <= i < n :: ([l] + rest)[i] == rest[i - 1];
      ([l] + rest, final)
  }

  /** The labels a fresh allocator hands out, written without reference to the allocator. */
  function Expected(n: nat): (s: seq<Option<char>>)
    ensures |s| == n
  {
    seq(n, i requires 0 <= i < n => if i < |Letters| then Some(Letters[i]) else None)
  }

  /**
   The first `n` calls from program start answer the first `n` letters in
   order (and None past the tenth call); the cursor stops at the alphabet's length.
   */
  lemma FreshIssuesPrefix(n: nat)
    ensures Issue(Fresh, n).0 == Expected(n)
    ensures Issue(Fresh, n).1.counter == if n < |Letters| then n else |Letters|
  {
    assert forall i | 0 <= i < n :: Issue(Fresh, n).0[i] == Expected(n)[i];
  }

  /** No label is handed out twice, however many calls are made. */
  lemma IssuedLabelsDistinct(n: nat, i: nat, j: nat)
    requires i < j < n
    requires Issue(Fresh, n).0[i].Some?
    ensures Issue(Fresh, n).0[i] != Issue(Fresh, n).0[j]
  {
    FreshIssuesPrefix(n);
    LettersDistinct();
  }
}
