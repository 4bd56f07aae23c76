/**
 * The easter egg: a keydown listener keeps the most recent key codes in a
 * buffer no longer than the Konami pattern, and when the buffer spells the
 * pattern it shows a success banner and starts over with an empty buffer.
 */
module Konami {
  import Notifications

  /** Up Up Down Down Left Right Left Right B A, as key codes. */
  const Pattern: seq<int> := [38, 38, 40, 40, 37, 39, 37, 39, 66, 65]

  const UnlockText := "\U{1F389} Easter egg unlocked! Thanks for exploring my portfolio thoroughly!"

  /** The last `|Pattern|` key codes of `keys`, or all of them when there are fewer. */
  function Window(keys: seq<int>): seq<int>
  {
    if |keys| <= |Pattern| then keys else keys[|keys| - |Pattern|..]
  }

  /** The window holds the most recent key codes, as many as fit, in the order pressed. */
  lemma WindowIsMostRecent(keys: seq<int>)
    ensures |Window(keys)| == if |keys| < |Pattern| then |keys| else |Pattern|
    ensures Window(keys) == keys[|keys| - |Window(keys)|..]
  {
  }

  /**
   * One keydown on the window: pushing the new code and shifting the
   * oldest one out when the buffer grows past the pattern's length gives
   * the window of the longer history.
   */
  lemma PushShiftIsWindow(keys: seq<int>, code: int)
    ensures var pushed := Window(keys) + [code];
            Window(keys + [code]) == if |pushed| > |Pattern| then pushed[1..] else pushed
  {
    var pushed := Window(keys) + [code];
    var longer := keys + [code];
    if |keys| >= |Pattern| {
      assert pushed[1..] == longer[|longer| - |Pattern|..];
    }
  }

  /** The buffer can only spell the pattern once the last ten key codes are the pattern. */
  lemma {:induction false} WindowMatchesIffLastTen(keys: seq<int>)
    ensures Window(keys) == Pattern <==> |keys| >= |Pattern| && keys[|keys| - |Pattern|..] == Pattern
  {
    if |keys| < |Pattern| {
      assert |Window(keys)| < |Pattern|;
    } else if |keys| == |Pattern| {
      assert keys[|keys| - |Pattern|..] == keys;
    }
  }

  /** Pressing code `i` of the pattern after the first `i`: the window is the pattern only on the last one. */
  lemma PatternStep(i: nat)
    requires i < |Pattern|
    ensures Pattern[..i] + [Pattern[i]] == Pattern[..i + 1]
    ensures Window(Pattern[..i + 1]) == Pattern <==> i + 1 == |Pattern|
  {
    assert Pattern[..i] + [Pattern[i]] == Pattern[..i + 1];
    WindowMatchesIffLastTen(Pattern[..i + 1]);
  }

  class Listener {
    /** `konamiCode`: the buffer the listener pushes to and shifts from. */
    var code: seq<int>
    /** Every key code pressed since the page loaded or since the last unlock. */
    ghost var keys: seq<int>
    const presenter: Notifications.Presenter

    ghost predicate Valid()
      reads this
    {
      code == Window(keys)
    }

    constructor (presenter: Notifications.Presenter)
      ensures Valid()
      ensures code == [] && keys == [] && this.presenter == presenter
    {
      code := [];
      keys := [];
      this.presenter := presenter;
    }

    /**
     * The keydown handler: push the code, shift when over length, and on a
     * match show the success banner and empty the buffer. Returns whether
     * the pattern was matched.
     */
    method KeyDown(keyCode: int) returns (unlocked: bool)
      requires Valid() && presenter.Valid()
      modifies this, presenter
      ensures Valid() && presenter.Valid()
      ensures |code| <= |Pattern|
      ensures unlocked <==> Window(old(keys) + [keyCode]) == Pattern
      ensures unlocked ==>
                && keys == [] && code == []
                && presenter.created == old(presenter.created) + 1
                && presenter.shown == [Notifications.Notification(
                     old(presenter.created), "success", Notifications.CheckMark,
                     Notifications.Affirmative, UnlockText, false)]
      ensures !unlocked ==>
                && keys == old(keys) + [keyCode]
                && presenter.shown == old(presenter.shown) && presenter.created == old(presenter.created)
    {
      PushShiftIsWindow(keys, keyCode);
      code := code + [keyCode];
      if |code| > |Pattern| {
        code := code[1..];
      }
      keys := keys + [keyCode];
      unlocked := code == Pattern;
      if unlocked {
        var _ := presenter.Show(UnlockText, "success");
        code := [];
        keys := [];
      }
    }
  }

  /** Pressing the ten codes of the pattern on a fresh listener unlocks on the last one. */
  method UnlockScenario(presenter: Notifications.Presenter)
    requires presenter.Valid()
    modifies presenter
    ensures presenter.Valid() && |presenter.shown| == 1 && presenter.shown[0].text == UnlockText
  {
    var listener := new Listener(presenter);
    var i := 0;
    var unlocked := false;
    while i < |Pattern|
      invariant 0 <= i <= |Pattern|
      invariant listener.Valid() && presenter.Valid() && listener.presenter == presenter
      invariant listener.keys == if i < |Pattern| then Pattern[..i] else []
      invariant unlocked <==> i == |Pattern|
      invariant unlocked ==> |presenter.shown| == 1 && presenter.shown[0].text == UnlockText
    {
      PatternStep(i);
      unlocked := listener.KeyDown(Pattern[i]);
      i := i + 1;
    }
  }
}
