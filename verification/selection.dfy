/**
 * The arithmetic of the result-list cursor `selectedIndex`
 * (assets/js/search.js:10, 37-45): -1 means no result is selected, and
 * 0 .. n-1 name one of the n rendered results. The arrow keys clamp at both
 * ends and never wrap.
 */
module Selection {
  import opened Wrappers

  /** The cursor's range for `n` rendered results. */
  predicate InRange(s: int, n: nat)
  {
    -1 <= s < n
  }

  /**
   * ArrowDown: `Math.min(selectedIndex + 1, results.length - 1)`. It stays in
   * range, sticks at the last result, and with no results it is -1.
   */
  function Down(s: int, n: nat): (r: int)
    ensures InRange(s, n) ==> InRange(r, n)
    ensures n == 0 && s >= -1 ==> r == -1
    ensures InRange(s, n) && s < n - 1 ==> r == s + 1
    ensures n > 0 && s == n - 1 ==> r == s
  {
    if s + 1 < n - 1 then s + 1 else n - 1
  }

  /**
   * ArrowUp: `Math.max(selectedIndex - 1, -1)`. It stays in range and sticks
   * at -1 (nothing selected); the cursor does not wrap to the last result.
   */
  function Up(s: int): (r: int)
    ensures forall n: nat :: InRange(s, n) ==> InRange(r, n)
    ensures s >= 0 ==> r == s - 1
    ensures s <= -1 ==> r == -1
  {
    if s - 1 > -1 then s - 1 else -1
  }

  /** The two keys that move the cursor. */
  datatype Arrow = ArrowDown | ArrowUp

  /** The cursor after the arrow presses `keys`, over `n` results. */
  function Press(s: int, n: nat, keys: seq<Arrow>): int
    decreases |keys|
  {
    if keys == [] then s
    else
      var s' := match keys[0] case ArrowDown => Down(s, n) case ArrowUp => Up(s);
      Press(s', n, keys[1..])
  }

  /** Any sequence of arrow presses keeps the cursor in range. */
  lemma {:induction false} PressInRange(s: int, n: nat, keys: seq<Arrow>)
    requires InRange(s, n)
    ensures InRange(Press(s, n, keys), n)
    decreases |keys|
  {
    if keys != [] {
      var s' := match keys[0] case ArrowDown => Down(s, n) case ArrowUp => Up(s);
      assert InRange(s', n);
      PressInRange(s', n, keys[1..]);
    }
  }

  /** `k` presses of one key. */
  function Repeat(key: Arrow, k: nat): (r: seq<Arrow>)
    ensures |r| == k
    ensures forall i :: 0 <= i < k ==> r[i] == key
  {
    if k == 0 then [] else [key] + Repeat(key, k - 1)
  }

  /**
   * From "nothing selected", `k` ArrowDown presses select result min(k, n) - 1:
   * five presses over three results select the third.
   */
  lemma {:induction false} DownPresses(s: int, n: nat, k: nat)
    requires InRange(s, n)
    ensures Press(s, n, Repeat(ArrowDown, k)) == if s + k < n then s + k else n - 1
    decreases k
  {
    if k > 0 {
      DownPresses(Down(s, n), n, k - 1);
      assert Repeat(ArrowDown, k)[1..] == Repeat(ArrowDown, k - 1);
    }
  }

  /** `k` ArrowUp presses move the cursor up by `k` and stop at -1. */
  lemma {:induction false} UpPresses(s: int, n: nat, k: nat)
    requires InRange(s, n)
    ensures Press(s, n, Repeat(ArrowUp, k)) == if s - k > -1 then s - k else -1
    decreases k
  {
    if k > 0 {
      UpPresses(Up(s), n, k - 1);
      assert Repeat(ArrowUp, k)[1..] == Repeat(ArrowUp, k - 1);
    }
  }

  /** ArrowUp undoes ArrowDown unless the cursor was already on the last result. */
  lemma UpUndoesDown(s: int, n: nat)
    requires InRange(s, n) && s < n - 1
    ensures Up(Down(s, n)) == s
  {
  }

  /** ArrowDown undoes ArrowUp unless nothing was selected. */
  lemma DownUndoesUp(s: int, n: nat)
    requires InRange(s, n) && s >= 0
    ensures Down(Up(s), n) == s
  {
  }

  /**
   * Enter: `selectedIndex >= 0 && results[selectedIndex]` picks the result at
   * the cursor when there is one; otherwise nothing happens.
   */
  function Activated(s: int, n: nat): (r: Option<nat>)
    ensures r.Some? ==> r.value == s && r.value < n
    ensures r.None? ==> s < 0 || s >= n
  {
    if 0 <= s < n then Some(s) else None
  }

  /**
   * After `k` >= 1 ArrowDown presses from "nothing selected" over at least
   * one result, Enter picks result min(k, n) - 1; over no results it picks
   * nothing.
   */
  lemma EnterAfterDownPresses(n: nat, k: nat)
    requires k >= 1
    ensures n >= 1 ==> Activated(Press(-1, n, Repeat(ArrowDown, k)), n) == Some(if k < n then k - 1 else n - 1)
    ensures n == 0 ==> Activated(Press(-1, n, Repeat(ArrowDown, k)), n) == None
  {
    DownPresses(-1, n, k);
  }
}
