/**
 The hero section's typing effect. An interval callback either shows the
 first `index` characters of the target text and advances `index`, or,
 once `index` has passed the text's length, clears the interval. Time is
 modelled as the count of callbacks ("ticks"), not as milliseconds.
 */
module Typing {

  /** The target text of the page. */
  const FullText: string := "I build amazing web experiences"

  /**
   `text` is the shown string, `index` the callback's `currentIndex`, and
   `running` is false once the interval has been cleared.
   */
  datatype Typer = Typer(text: string, index: nat, running: bool)

  /** The state at mount, before the first callback. */
  const Start := Typer("", 0, true)

  /** One interval callback for the target `full`. */
  function Tick(full: string, t: Typer): Typer {
    if !t.running then t
    else if t.index <= |full| then Typer(full[..t.index], t.index + 1, true)
    else t.(running := false)
  }

  /** The state after `n` callbacks from mount. */
  function TypeTicks(full: string, n: nat): Typer {
    if n == 0 then Start else Tick(full, TypeTicks(full, n - 1))
  }

  /** How many characters are shown once `index` callbacks have revealed text. */
  function ShownLength(index: nat): nat {
    if index == 0 then 0 else index - 1
  }

  /**
   The state a run can be in: `index` at most one past the length, the
   shown text the prefix that `index` implies, and a cleared interval only
   after the whole text has been revealed.
   */
  ghost predicate Reachable(full: string, t: Typer) {
    && t.index <= |full| + 1
    && t.text == full[..ShownLength(t.index)]
    && (!t.running ==> t.index == |full| + 1)
  }

  /**
   A callback keeps the state reachable, never shortens the shown text and
   only ever extends it.
   */
  lemma TickKeepsPrefix(full: string, t: Typer)
    requires Reachable(full, t)
    ensures var r := Tick(full, t);
      Reachable(full, r) && t.text <= r.text && |t.text| <= |r.text| <= |t.text| + 1
  {
  }

  /**
   After callback `n`, for `1 <= n <= |full| + 1`, the first `n - 1`
   characters are shown and the interval is still running; the very first
   callback shows the empty string.
   */
  lemma {:induction false} RevealAfter(full: string, n: nat)
    requires 1 <= n <= |full| + 1
    ensures TypeTicks(full, n) == Typer(full[..n - 1], n, true)
  {
    if n > 1 {
      RevealAfter(full, n - 1);
    }
  }

  /**
   Callback `|full| + 2` clears the interval, and from then on nothing
   changes: the whole text stays shown.
   */
  lemma {:induction false} StopsAfterFullText(full: string, n: nat)
    requires n >= |full| + 2
    ensures TypeTicks(full, n) == Typer(full, |full| + 1, false)
  {
    if n == |full| + 2 {
      RevealAfter(full, |full| + 1);
      assert full[..|full|] == full;
    } else {
      StopsAfterFullText(full, n - 1);
    }
  }

  /** Every state of a run is reachable: in particular the shown text is a prefix of the target. */
  lemma {:induction false} RunReachable(full: string, n: nat)
    ensures Reachable(full, TypeTicks(full, n))
    ensures TypeTicks(full, n).text <= full
  {
    if n > 0 {
      RunReachable(full, n - 1);
      TickKeepsPrefix(full, TypeTicks(full, n - 1));
    }
  }

  /** The shown text never shrinks: an earlier text is a prefix of every later one. */
  lemma {:induction false} TextGrows(full: string, m: nat, n: nat)
    requires m <= n
    ensures TypeTicks(full, m).text <= TypeTicks(full, n).text
  {
    if m < n {
      TextGrows(full, m, n - 1);
      RunReachable(full, n - 1);
      TickKeepsPrefix(full, TypeTicks(full, n - 1));
    }
  }

  /**
   The whole text is first shown at callback `|full| + 1`, one callback
   after the last character was still missing, and the interval is cleared
   at callback `|full| + 2`.
   */
  lemma FullTextTiming(full: string)
    ensures TypeTicks(full, |full| + 1).text == full && TypeTicks(full, |full| + 1).running
    ensures |full| > 0 ==> TypeTicks(full, |full|).text != full
    ensures !TypeTicks(full, |full| + 2).running
  {
    RevealAfter(full, |full| + 1);
    assert full[..|full|] == full;
    if |full| > 0 {
      RevealAfter(full, |full|);
    }
    StopsAfterFullText(full, |full| + 2);
  }

  /**
   The page's own text has 31 characters: it is complete at callback 32
   and the interval is cleared at callback 33.
   */
  lemma PageTextLength()
    ensures |FullText| == 31
    ensures TypeTicks(FullText, 32).text == FullText && TypeTicks(FullText, 32).running
    ensures !TypeTicks(FullText, 33).running
  {
    FullTextTiming(FullText);
  }
}
