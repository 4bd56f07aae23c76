/**
 * The floating notification banner. The page holds the `.notification`
 * elements that `showNotification` appends to the document body; showing
 * one first removes every one already there. Each banner's two dismissal
 * timers (slide out after five seconds, removal 300 ms later) are modelled
 * as events that name the banner they were scheduled for.
 */
module Notifications {

  /** The icon drawn at the start of a banner. */
  datatype Icon = CheckMark | CrossMark | InfoMark

  /** The colour scheme of a banner. */
  datatype Palette = Affirmative | Negative | Neutral

  /** The icon looked up by type; a type with no entry falls back to the info icon. */
  function IconOf(kind: string): (i: Icon)
    ensures i == CheckMark <==> kind == "success"
    ensures i == CrossMark <==> kind == "error"
  {
    if kind == "success" then CheckMark
    else if kind == "error" then CrossMark
    else InfoMark
  }

  /** The colours chosen by type: error, success, and everything else as info. */
  function PaletteOf(kind: string): (p: Palette)
    ensures p == Negative <==> kind == "error"
    ensures p == Affirmative <==> kind == "success"
  {
    if kind == "error" then Negative
    else if kind == "success" then Affirmative
    else Neutral
  }

  /** A banner with an unrecognised type is drawn exactly like an info banner. */
  lemma UnknownKindLooksLikeInfo(kind: string)
    requires kind != "success" && kind != "error"
    ensures IconOf(kind) == IconOf("info") == InfoMark
    ensures PaletteOf(kind) == PaletteOf("info") == Neutral
  {
  }

  /**
   * One `.notification` element. `id` stands for the element's identity,
   * which the dismissal timers hold on to; `leaving` is set once the banner
   * has started to slide out.
   */
  datatype Notification = Notification(id: nat, kind: string, icon: Icon, palette: Palette,
                                       text: string, leaving: bool)

  class Presenter {
    /** The `.notification` elements in the document, in document order. */
    var shown: seq<Notification>
    /** How many banners have been created so far; the next one's identity. */
    var created: nat

    ghost predicate Valid()
      reads this
    {
      && |shown| <= 1
      && forall n :: n in shown ==> n.id < created
    }

    constructor ()
      ensures Valid()
      ensures shown == [] && created == 0
    {
      shown := [];
      created := 0;
    }

    /**
     * `showNotification`: remove every banner on the page, then append a
     * new visible one. Returns the new banner's identity, the handle its
     * dismissal timers are given.
     */
    method Show(message: string, kind: string := "info") returns (id: nat)
      requires Valid()
      modifies this
      ensures Valid()
      ensures id == old(created) && created == old(created) + 1
      ensures shown == [Notification(id, kind, IconOf(kind), PaletteOf(kind), message, false)]
    {
      while shown != []
        invariant created == old(created)
        invariant forall n :: n in shown ==> n.id < created
        decreases |shown|
      {
        shown := shown[1..];
      }
      id := created;
      created := created + 1;
      shown := shown + [Notification(id, kind, IconOf(kind), PaletteOf(kind), message, false)];
    }

    /**
     * The five-second timer of banner `id`: it starts sliding out. When the
     * banner has already been evicted the timer only touches a detached
     * element, so the page does not change.
     */
    method BeginDismiss(id: nat)
      requires Valid()
      modifies this
      ensures Valid() && created == old(created)
      ensures shown == if old(shown) != [] && old(shown)[0].id == id
                       then [old(shown)[0].(leaving := true)]
                       else old(shown)
    {
      if shown != [] && shown[0].id == id {
        shown := [shown[0].(leaving := true)];
      }
    }

    /**
     * The 300 ms timer that follows: the banner is removed if it is still
     * attached to the page, and nothing happens otherwise.
     */
    method FinishDismiss(id: nat)
      requires Valid()
      modifies this
      ensures Valid() && created == old(created)
      ensures shown == if old(shown) != [] && old(shown)[0].id == id then [] else old(shown)
      ensures forall n :: n in shown ==> n.id != id
    {
      if shown != [] && shown[0].id == id {
        shown := [];
      }
    }
  }

  /**
   * Showing an error and then at once a success leaves one banner, the
   * success, and the timers of the evicted error no longer change the page.
   */
  method EvictionScenario(p: Presenter)
    requires p.Valid()
    modifies p
    ensures p.Valid() && |p.shown| == 1 && p.shown[0].text == "y" && p.shown[0].icon == CheckMark
  {
    var first := p.Show("x", "error");
    var second := p.Show("y", "success");
    p.BeginDismiss(first);
    p.FinishDismiss(first);
    assert p.shown[0].id == second;
  }
}
