/**
 * The editor's formatting logic (main.c): checking whether the whole
 * selection carries a tag, toggling a tag over the selection while clearing
 * the other tags of its exclusive group, the group chosen for each format
 * button, and the Ctrl shortcuts. The text buffer is reduced to the tag set
 * of each character and the selection to the index range [start, end).
 */
module Editor {
  import opened Optional

  /** The nine tags the editor creates. */
  datatype Tag = Bold | Italic | Underline | Red | Blue | Green | Small | Normal | Big

  /** `color_tags`. */
  const ColorTags: seq<Tag> := [Red, Blue, Green]

  /** `size_tags`. */
  const SizeTags: seq<Tag> := [Small, Normal, Big]

  /** The exclusive tags a format click passes along: colours, sizes, or none for bold, italic and underline. */
  function ExclusiveGroup(t: Tag): (g: seq<Tag>)
    ensures g == [] <==> t == Bold || t == Italic || t == Underline
    ensures g != [] ==> t in g && |g| == 3
    ensures t in ColorTags ==> g == ColorTags
    ensures t in SizeTags ==> g == SizeTags
  {
    match t
    case Red | Blue | Green => ColorTags
    case Small | Normal | Big => SizeTags
    case Bold | Italic | Underline => []
  }

  /** The groups partition the tags they mention: every member of a tag's group has that same group. */
  lemma GroupsPartition(t: Tag, u: Tag)
    ensures ExclusiveGroup(t) != [] ==> t in ExclusiveGroup(t)
    ensures u in ExclusiveGroup(t) ==> ExclusiveGroup(u) == ExclusiveGroup(t)
    ensures ExclusiveGroup(t) == [] <==> t in {Bold, Italic, Underline}
  {
  }

  /** Every character in [lo, hi) carries `t`. */
  predicate AllTagged(tags: seq<set<Tag>>, lo: nat, hi: nat, t: Tag)
    requires lo <= hi <= |tags|
  {
    forall k :: lo <= k < hi ==> t in tags[k]
  }

  /** The tags of `s` after the other members of `exclusives` are cleared and `t` is removed (`had`) or added. */
  function Retagged(s: set<Tag>, t: Tag, exclusives: seq<Tag>, had: bool): set<Tag>
  {
    var cleared := s - (set e | e in exclusives && e != t);
    if had then cleared - {t} else cleared + {t}
  }

  /**
   * The buffer's tags after `toggle_tag(t, exclusives)` on the selection
   * [lo, hi): the decision is taken from the tags before any change.
   */
  function Toggled(tags: seq<set<Tag>>, lo: nat, hi: nat, t: Tag, exclusives: seq<Tag>): seq<set<Tag>>
    requires lo <= hi <= |tags|
  {
    var had := AllTagged(tags, lo, hi, t);
    seq(|tags|, k requires 0 <= k < |tags| =>
      if lo <= k < hi then Retagged(tags[k], t, exclusives, had) else tags[k])
  }

  /** Characters outside the selection keep their tags; so does every character when there is no selection. */
  lemma ToggledOutside(tags: seq<set<Tag>>, lo: nat, hi: nat, t: Tag, exclusives: seq<Tag>, k: nat)
    requires lo <= hi <= |tags| && k < |tags|
    requires k < lo || hi <= k
    ensures |Toggled(tags, lo, hi, t, exclusives)| == |tags|
    ensures Toggled(tags, lo, hi, t, exclusives)[k] == tags[k]
  {
  }

  /** With no selection the buffer is unchanged. */
  lemma ToggledNoSelection(tags: seq<set<Tag>>, lo: nat, t: Tag, exclusives: seq<Tag>)
    requires lo <= |tags|
    ensures Toggled(tags, lo, lo, t, exclusives) == tags
  {
  }

  /** If every selected character had `t`, no selected character has it afterwards; otherwise every one does. */
  lemma ToggledFlips(tags: seq<set<Tag>>, lo: nat, hi: nat, t: Tag, exclusives: seq<Tag>)
    requires lo < hi <= |tags|
    ensures var r := Toggled(tags, lo, hi, t, exclusives);
      && (AllTagged(tags, lo, hi, t) ==> forall k :: lo <= k < hi ==> t !in r[k])
      && (!AllTagged(tags, lo, hi, t) ==> AllTagged(r, lo, hi, t))
      && (AllTagged(r, lo, hi, t) <==> !AllTagged(tags, lo, hi, t))
  {
    var r := Toggled(tags, lo, hi, t, exclusives);
    if AllTagged(tags, lo, hi, t) {
      assert t !in r[lo];
    }
  }

  /** After the toggle no selected character carries another tag of the exclusive group. */
  lemma ToggledExclusive(tags: seq<set<Tag>>, lo: nat, hi: nat, t: Tag, exclusives: seq<Tag>, k: nat, e: Tag)
    requires lo <= k < hi <= |tags|
    requires e in exclusives && e != t
    ensures e !in Toggled(tags, lo, hi, t, exclusives)[k]
  {
  }

  /** Tags outside the exclusive group, other than `t`, are left as they were. */
  lemma ToggledKeepsOthers(tags: seq<set<Tag>>, lo: nat, hi: nat, t: Tag, exclusives: seq<Tag>, k: nat, u: Tag)
    requires lo <= k < hi <= |tags|
    requires u !in exclusives && u != t
    ensures u in Toggled(tags, lo, hi, t, exclusives)[k] <==> u in tags[k]
  {
  }

  /** The tags of the selection once the other exclusive tags are cleared and before `t` is toggled. */
  function Cleared(tags: seq<set<Tag>>, lo: nat, hi: nat, t: Tag, exclusives: seq<Tag>): seq<set<Tag>>
    requires lo <= hi <= |tags|
  {
    seq(|tags|, k requires 0 <= k < |tags| =>
      if lo <= k < hi then tags[k] - (set e | e in exclusives && e != t) else tags[k])
  }

  /** Taking the decision before or after clearing the other exclusive tags gives the same answer. */
  lemma DecisionIgnoresClearing(tags: seq<set<Tag>>, lo: nat, hi: nat, t: Tag, exclusives: seq<Tag>)
    requires lo <= hi <= |tags|
    ensures AllTagged(Cleared(tags, lo, hi, t, exclusives), lo, hi, t) == AllTagged(tags, lo, hi, t)
  {
    var c := Cleared(tags, lo, hi, t, exclusives);
    forall k | lo <= k < hi
      ensures t in c[k] <==> t in tags[k]
    {
    }
  }

  /** After a format click each selected character carries at most one tag of the clicked tag's group. */
  lemma ClickLeavesOneOfGroup(tags: seq<set<Tag>>, lo: nat, hi: nat, t: Tag, k: nat, u: Tag, v: Tag)
    requires lo <= k < hi <= |tags|
    requires u in ExclusiveGroup(t) && v in ExclusiveGroup(t)
    requires u in Toggled(tags, lo, hi, t, ExclusiveGroup(t))[k]
    requires v in Toggled(tags, lo, hi, t, ExclusiveGroup(t))[k]
    ensures u == v
  {
  }

  // ---------------------------------------------------------------------------
  // Keyboard shortcuts
  // ---------------------------------------------------------------------------

  /** `GDK_CONTROL_MASK`. */
  const ControlMask: bv32 := 0x4

  const KeyB: bv32 := 0x062
  const KeyI: bv32 := 0x069
  const KeyU: bv32 := 0x075
  const KeyR: bv32 := 0x072
  const KeyL: bv32 := 0x06c
  const KeyG: bv32 := 0x067
  const KeyEqual: bv32 := 0x03d
  const KeyMinus: bv32 := 0x02d

  /** The tag a key press formats with, if any: none unless Ctrl is held or for an unmapped key. */
  function Shortcut(keyval: bv32, state: bv32): (r: Option<Tag>)
    ensures r.Some? ==> state & ControlMask != 0 && r.value != Normal
    ensures r.Some? ==> ShortcutKey(r.value) == Some(keyval)
  {
    if state & ControlMask == 0 then None
    else if keyval == KeyB then Some(Bold)
    else if keyval == KeyI then Some(Italic)
    else if keyval == KeyU then Some(Underline)
    else if keyval == KeyR then Some(Red)
    else if keyval == KeyL then Some(Blue)
    else if keyval == KeyG then Some(Green)
    else if keyval == KeyEqual then Some(Big)
    else if keyval == KeyMinus then Some(Small)
    else None
  }

  /** The key bound to each tag; `normal` has none. */
  function ShortcutKey(t: Tag): Option<bv32>
  {
    match t
    case Bold => Some(KeyB)
    case Italic => Some(KeyI)
    case Underline => Some(KeyU)
    case Red => Some(KeyR)
    case Blue => Some(KeyL)
    case Green => Some(KeyG)
    case Big => Some(KeyEqual)
    case Small => Some(KeyMinus)
    case Normal => None
  }

  /** A shortcut fires exactly when Ctrl is held and the key is the one bound to the tag it yields. */
  lemma ShortcutMatchesKeys(keyval: bv32, state: bv32, t: Tag)
    ensures Shortcut(keyval, state) == Some(t) <==>
      state & ControlMask != 0 && ShortcutKey(t) == Some(keyval)
  {
  }

  /** Without Ctrl no key does anything. */
  lemma ShortcutNeedsCtrl(keyval: bv32, state: bv32)
    requires state & ControlMask == 0
    ensures Shortcut(keyval, state) == None
  {
  }

  /** The part of the GTK text buffer the formatting code uses. */
  class TextBuffer {
    var tags: array<set<Tag>>
    var selStart: nat
    var selEnd: nat

    /** The selection bounds are ordered and lie within the text. */
    ghost predicate Valid()
      reads this
    {
      selStart <= selEnd <= tags.Length
    }

    constructor (initial: seq<set<Tag>>, start: nat, end: nat)
      requires start <= end <= |initial|
      ensures Valid() && fresh(tags)
      ensures tags[..] == initial && selStart == start && selEnd == end
    {
      tags := new set<Tag>[|initial|](k requires 0 <= k < |initial| => initial[k]);
      selStart, selEnd := start, end;
    }

    /** `selection_has_tag`: false without a selection, else whether every selected character carries `t`. */
    method SelectionHasTag(t: Tag) returns (r: bool)
      requires Valid()
      ensures r <==> selStart < selEnd && forall k :: selStart <= k < selEnd ==> t in tags[k]
    {
      if selStart == selEnd {
        return false;
      }
      var k := selStart;
      while k < selEnd
        invariant selStart <= k <= selEnd
        invariant forall j :: selStart <= j < k ==> t in tags[j]
      {
        if t !in tags[k] {
          return false;
        }
        k := k + 1;
      }
      return true;
    }

    /** `gtk_text_buffer_remove_tag` over the selection. */
    method RemoveTag(t: Tag)
      requires Valid()
      modifies tags
      ensures forall k :: 0 <= k < tags.Length ==>
        tags[k] == if selStart <= k < selEnd then old(tags[k]) - {t} else old(tags[k])
    {
      forall k | selStart <= k < selEnd {
        tags[k] := tags[k] - {t};
      }
    }

    /** `gtk_text_buffer_apply_tag` over the selection. */
    method ApplyTag(t: Tag)
      requires Valid()
      modifies tags
      ensures forall k :: 0 <= k < tags.Length ==>
        tags[k] == if selStart <= k < selEnd then old(tags[k]) + {t} else old(tags[k])
    {
      forall k | selStart <= k < selEnd {
        tags[k] := tags[k] + {t};
      }
    }

    /**
     * `toggle_tag`: with no selection nothing happens. Otherwise note whether
     * the whole selection has `t`, clear every other tag of `exclusives` from
     * the selection, then remove `t` from it if it all had `t`, else apply `t`.
     */
    method ToggleTag(t: Tag, exclusives: seq<Tag>)
      requires Valid()
      modifies tags
      ensures tags[..] == Toggled(old(tags[..]), selStart, selEnd, t, exclusives)
    {
      if selStart == selEnd {
        return;
      }
      var had := SelectionHasTag(t);
      for i := 0 to |exclusives|
        invariant forall k :: 0 <= k < tags.Length ==>
          tags[k] == if selStart <= k < selEnd
                     then old(tags[k]) - (set e | e in exclusives[..i] && e != t)
                     else old(tags[k])
      {
        if exclusives[i] != t {
          RemoveTag(exclusives[i]);
        }
        assert exclusives[..i + 1] == exclusives[..i] + [exclusives[i]];
      }
      assert exclusives[..|exclusives|] == exclusives;
      if !had {
        ApplyTag(t);
      } else {
        RemoveTag(t);
      }
    }

    /** `on_format_button_clicked`: toggle the tag with the exclusive group it belongs to. */
    method FormatClicked(t: Tag)
      requires Valid()
      modifies tags
      ensures tags[..] == Toggled(old(tags[..]), selStart, selEnd, t, ExclusiveGroup(t))
    {
      ToggleTag(t, ExclusiveGroup(t));
    }

    /** `on_key_press`: a Ctrl shortcut formats the selection and is reported handled; any other key is not. */
    method KeyPressed(keyval: bv32, state: bv32) returns (handled: bool)
      requires Valid()
      modifies tags
      ensures handled <==> Shortcut(keyval, state).Some?
      ensures handled ==> tags[..] == Toggled(old(tags[..]), selStart, selEnd,
        Shortcut(keyval, state).value, ExclusiveGroup(Shortcut(keyval, state).value))
      ensures !handled ==> tags[..] == old(tags[..])
    {
      match Shortcut(keyval, state) {
        case Some(t) =>
          FormatClicked(t);
          handled := true;
        case None =>
          handled := false;
      }
    }
  }
}
