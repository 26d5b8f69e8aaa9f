/**
 * The flashcard session (`QUIZ`): a deck, a cursor into it and whether the
 * back of the current card is shown.  "Start" loads the deck, "Flip" turns
 * the card and "Next" moves on, wrapping to the first card after the last.
 */
module Quiz {
  import Notes

  /** The cursor after "Next" on a deck of `n` cards: one on, or back to the start. */
  function NextIndex(idx: nat, n: nat): (r: nat)
    requires idx < n
    ensures r < n
    ensures r == (idx + 1) % n
    ensures r == 0 <==> idx == n - 1
  {
    if idx + 1 >= n then 0 else idx + 1
  }

  /** The cursor after pressing "Next" `k` times on a freshly started deck. */
  function AfterPresses(n: nat, k: nat): (r: nat)
    requires n > 0
    ensures r < n
  {
    if k == 0 then 0 else NextIndex(AfterPresses(n, k - 1), n)
  }

  /** After `q` full rounds and `r` more presses the cursor is on card `r`. */
  lemma {:induction false} AfterRounds(n: nat, q: nat, r: nat)
    requires r < n
    ensures AfterPresses(n, q * n + r) == r
  {
    if r > 0 {
      AfterRounds(n, q, r - 1);
    } else if q > 0 {
      AfterRounds(n, q - 1, n - 1);
      assert (q - 1) * n + (n - 1) + 1 == q * n;
    }
  }

  /** The `k`-th press shows card `k mod n`: every card in turn, over and over. */
  lemma AfterPressesMod(n: nat, k: nat)
    requires n > 0
    ensures AfterPresses(n, k) == k % n
  {
    var q, r := k / n, k % n;
    assert k == q * n + r;
    AfterRounds(n, q, r);
  }

  /** Pressing "Next" once per card brings the cursor back to the first card. */
  lemma FullRound(n: nat)
    requires n > 0
    ensures AfterPresses(n, n) == 0
  {
    AfterPressesMod(n, n);
  }

  class Session {
    var idx: nat
    var cards: seq<Notes.Card>
    var backShown: bool

    /** The cursor points at a card, or is 0 on an empty deck. */
    ghost predicate Valid()
      reads this
    {
      idx == 0 || idx < |cards|
    }

    /** `{ idx: 0, cards: [] }`. */
    constructor()
      ensures idx == 0 && cards == [] && !backShown
      ensures Valid()
    {
      idx, cards, backShown := 0, [], false;
    }

    /**
     * `btnStartQuiz`: an empty deck changes nothing; otherwise the deck, in
     * the order given, is loaded with the first card face up.
     */
    method Start(deck: seq<Notes.Card>) returns (started: bool)
      requires Valid()
      modifies this
      ensures Valid()
      ensures started <==> deck != []
      ensures started ==> cards == deck && idx == 0 && !backShown
      ensures !started ==> cards == old(cards) && idx == old(idx) && backShown == old(backShown)
    {
      if deck == [] {
        return false;
      }
      cards, idx, backShown := deck, 0, false;
      return true;
    }

    /** `btnFlip`: shows the back when hidden and hides it when shown. */
    method Flip()
      modifies this
      ensures backShown == !old(backShown)
      ensures idx == old(idx) && cards == old(cards)
    {
      backShown := !backShown;
    }

    /**
     * `btnNext`: on an empty deck nothing happens; otherwise the cursor
     * moves on, wrapping to the first card (and reporting it) after the
     * last, and the new card shows its front.
     */
    method Next() returns (wrapped: bool)
      requires Valid()
      modifies this
      ensures Valid()
      ensures cards == old(cards)
      ensures cards == [] ==> idx == old(idx) && backShown == old(backShown) && !wrapped
      ensures cards != [] ==> idx < |cards| && idx == NextIndex(old(idx), |cards|) && !backShown
      ensures wrapped <==> cards != [] && old(idx) == |cards| - 1
    {
      if |cards| == 0 {
        return false;
      }
      idx := idx + 1;
      wrapped := false;
      if idx >= |cards| {
        wrapped := true;
        idx := 0;
      }
      backShown := false;
    }
  }
}
