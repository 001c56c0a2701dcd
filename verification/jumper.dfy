/** The jump-target resolver of `Jumper._get_overlays`
    (src/posting/jumper.py:39-57).

    The screen's widget tree is given as the sequence `walk_children` yields,
    in walk order; the offset `screen.get_offset` reports for a widget is a
    field of the widget; the `Jumpable` protocol check is the presence of a
    self-declared jump key. */
module Jumper {
  import opened Wrappers
  import opened JumpTable

  /** A screen-relative cell offset. */
  datatype Offset = Offset(x: int, y: int)

  /** A widget, reduced to what the resolver reads. `handle` stands for the
      widget object's identity; `jumpKey` is present exactly when the widget
      is `Jumpable`. */
  datatype Widget = Widget(handle: nat, id: Option<Id>, jumpKey: Option<Key>, offset: Offset)

  /** `JumpInfo.widget`: either the widget's id or the widget itself. */
  datatype Target = ById(id: Id) | Direct(widget: Widget)

  /** The key that triggers a jump and the widget it jumps to. */
  datatype JumpInfo = JumpInfo(key: Key, target: Target)

  /** Python truthiness of `child.id`: present and not the empty string. */
  predicate HasTruthyId(w: Widget) {
    w.id.Some? && w.id.value != ""
  }

  /** The first eligibility rule: a truthy id the table knows. */
  predicate TableListed(t: IdsToKeys, w: Widget) {
    HasTruthyId(w) && w.id.value in Ids(t)
  }

  /** The jump entry one widget contributes, if any: by the table when its
      id is listed there, otherwise by its own jump key. */
  function Classify(t: IdsToKeys, w: Widget): (r: Option<JumpInfo>)
    ensures r.None? <==> !TableListed(t, w) && w.jumpKey.None?
    ensures TableListed(t, w) ==> r.Some? && r.value.target.ById?
    ensures r.Some? && r.value.target.ById? ==>
      && w.id == Some(r.value.target.id)
      && r.value.target.id != ""
      && Binding(r.value.target.id, r.value.key) in t
    ensures r.Some? && r.value.target.Direct? ==>
      && r.value.target.widget == w
      && w.jumpKey == Some(r.value.key)
  {
    if HasTruthyId(w) && Lookup(t, w.id.value).Some? then
      Some(JumpInfo(Lookup(t, w.id.value).value, ById(w.id.value)))
    else if w.jumpKey.Some? then
      Some(JumpInfo(w.jumpKey.value, Direct(w)))
    else
      None
  }

  /** Whether a widget is a jump target at all. */
  predicate Eligible(t: IdsToKeys, w: Widget) {
    Classify(t, w).Some?
  }

  /** The offsets of the eligible widgets. */
  function EligibleOffsets(t: IdsToKeys, ws: seq<Widget>): set<Offset> {
    set i | 0 <= i < |ws| && Eligible(t, ws[i]) :: ws[i].offset
  }

  /** The overlay dictionary: a left-to-right fold over the widgets in walk
      order, each eligible widget assigning its entry at its offset. */
  function Overlays(t: IdsToKeys, ws: seq<Widget>): map<Offset, JumpInfo> {
    if |ws| == 0 then map[]
    else
      var n := |ws| - 1;
      var m := Overlays(t, ws[..n]);
      match Classify(t, ws[n])
      case None => m
      case Some(info) => m[ws[n].offset := info]
  }

  /** One step of the fold: the last widget either leaves the dictionary of
      the widgets before it alone or assigns its entry at its offset. */
  lemma OverlaysStep(t: IdsToKeys, ws: seq<Widget>)
    requires |ws| > 0
    ensures Overlays(t, ws) ==
      var n := |ws| - 1;
      if Eligible(t, ws[n])
      then Overlays(t, ws[..n])[ws[n].offset := Classify(t, ws[n]).value]
      else Overlays(t, ws[..n])
  {
  }

  /** The dictionary has an entry at exactly the offsets of eligible
      widgets. */
  lemma {:induction false} OverlaysDomain(t: IdsToKeys, ws: seq<Widget>)
    ensures Overlays(t, ws).Keys == EligibleOffsets(t, ws)
  {
    if |ws| > 0 {
      var n := |ws| - 1;
      var init := ws[..n];
      OverlaysDomain(t, init);
      OverlaysStep(t, ws);
      assert forall i :: 0 <= i < n ==> init[i] == ws[i];
      if Eligible(t, ws[n]) {
        assert EligibleOffsets(t, ws) == EligibleOffsets(t, init) + {ws[n].offset};
      } else {
        assert EligibleOffsets(t, ws) == EligibleOffsets(t, init);
      }
    }
  }

  /** Every entry is what some widget at its offset contributes. */
  lemma {:induction false} OverlaysProvenance(t: IdsToKeys, ws: seq<Widget>, o: Offset)
    requires o in Overlays(t, ws)
    ensures exists i :: 0 <= i < |ws| && ws[i].offset == o && Classify(t, ws[i]) == Some(Overlays(t, ws)[o])
  {
    var n := |ws| - 1;
    var init := ws[..n];
    OverlaysStep(t, ws);
    if !(Eligible(t, ws[n]) && ws[n].offset == o) {
      OverlaysProvenance(t, init, o);
      var i :| 0 <= i < n && init[i].offset == o && Classify(t, init[i]) == Some(Overlays(t, init)[o]);
      assert init[i] == ws[i];
    }
  }

  /** `ws[i]` is eligible and no later widget at the same offset is. */
  ghost predicate LastEligibleAt(t: IdsToKeys, ws: seq<Widget>, i: int) {
    && 0 <= i < |ws|
    && Eligible(t, ws[i])
    && forall j {:trigger Eligible(t, ws[j])} :: i < j < |ws| && ws[j].offset == ws[i].offset ==> !Eligible(t, ws[j])
  }

  /** The declarative description of a jump map: one entry at the offset of
      every eligible widget and nowhere else, each holding what the last
      eligible widget at that offset contributes. */
  ghost predicate IsJumpMap(t: IdsToKeys, ws: seq<Widget>, m: map<Offset, JumpInfo>) {
    && m.Keys == EligibleOffsets(t, ws)
    && forall i {:trigger LastEligibleAt(t, ws, i)} :: LastEligibleAt(t, ws, i) ==>
         ws[i].offset in m && m[ws[i].offset] == Classify(t, ws[i]).value
  }

  /** The entry at an offset comes from the last eligible widget there. */
  lemma {:induction false} OverlaysAtLast(t: IdsToKeys, ws: seq<Widget>, i: int)
    requires LastEligibleAt(t, ws, i)
    ensures ws[i].offset in Overlays(t, ws)
    ensures Overlays(t, ws)[ws[i].offset] == Classify(t, ws[i]).value
  {
    var n := |ws| - 1;
    OverlaysStep(t, ws);
    if i < n {
      LastEligibleInit(t, ws, i);
      OverlaysAtLast(t, ws[..n], i);
      assert ws[..n][i] == ws[i];
    }
  }

  /** Dropping the last widget keeps an earlier widget last at its offset. */
  lemma LastEligibleInit(t: IdsToKeys, ws: seq<Widget>, i: int)
    requires LastEligibleAt(t, ws, i) && i < |ws| - 1
    ensures LastEligibleAt(t, ws[..|ws| - 1], i)
  {
    var init := ws[..|ws| - 1];
    forall j | i < j < |init| && init[j].offset == init[i].offset
      ensures !Eligible(t, init[j])
    {
      assert init[j] == ws[j];
    }
  }

  /** Every eligible widget has a last eligible widget at its offset, at or
      after it in walk order. */
  lemma {:induction false} LastEligibleExists(t: IdsToKeys, ws: seq<Widget>, i: int)
    requires 0 <= i < |ws| && Eligible(t, ws[i])
    ensures exists k :: i <= k < |ws| && ws[k].offset == ws[i].offset && LastEligibleAt(t, ws, k)
  {
    var n := |ws| - 1;
    if Eligible(t, ws[n]) && ws[n].offset == ws[i].offset {
      assert LastEligibleAt(t, ws, n);
    } else {
      var init := ws[..n];
      assert forall j :: 0 <= j < n ==> init[j] == ws[j];
      assert i < n;
      LastEligibleExists(t, init, i);
      var k :| i <= k < n && init[k].offset == ws[i].offset && LastEligibleAt(t, init, k);
      assert LastEligibleAt(t, ws, k);
    }
  }

  /** The fold meets the declarative description. */
  lemma OverlaysIsJumpMap(t: IdsToKeys, ws: seq<Widget>)
    ensures IsJumpMap(t, ws, Overlays(t, ws))
  {
    OverlaysDomain(t, ws);
    forall i | LastEligibleAt(t, ws, i)
      ensures ws[i].offset in Overlays(t, ws)
      ensures Overlays(t, ws)[ws[i].offset] == Classify(t, ws[i]).value
    {
      OverlaysAtLast(t, ws, i);
    }
  }

  /** The declarative description leaves no freedom: any two maps meeting it
      are equal, so it pins down the fold's result. */
  lemma JumpMapUnique(t: IdsToKeys, ws: seq<Widget>, m1: map<Offset, JumpInfo>, m2: map<Offset, JumpInfo>)
    requires IsJumpMap(t, ws, m1) && IsJumpMap(t, ws, m2)
    ensures m1 == m2
  {
    forall o | o in m1
      ensures m1[o] == m2[o]
    {
      var i :| 0 <= i < |ws| && Eligible(t, ws[i]) && ws[i].offset == o;
      LastEligibleExists(t, ws, i);
    }
  }

  /** `_get_overlays` as written: a loop over the walked widgets, assigning
      into a fresh dictionary. */
  method GetOverlays(t: IdsToKeys, children: seq<Widget>) returns (overlays: map<Offset, JumpInfo>)
    ensures overlays == Overlays(t, children)
    ensures IsJumpMap(t, children, overlays)
  {
    overlays := map[];
    var i := 0;
    while i < |children|
      invariant 0 <= i <= |children|
      invariant overlays == Overlays(t, children[..i])
    {
      var child := children[i];
      if HasTruthyId(child) && Lookup(t, child.id.value).Some? {
        overlays := overlays[child.offset := JumpInfo(Lookup(t, child.id.value).value, ById(child.id.value))];
      } else if child.jumpKey.Some? {
        overlays := overlays[child.offset := JumpInfo(child.jumpKey.value, Direct(child))];
      }
      assert children[..i + 1][..i] == children[..i];
      i := i + 1;
    }
    assert children[..i] == children;
    OverlaysIsJumpMap(t, children);
  }

  /** The table rule: a listed widget that no later eligible widget shares
      an offset with leaves an entry at its offset carrying the table's key
      for its id and the id itself as the target. */
  lemma {:induction false} TableRuleEntry(t: IdsToKeys, ws: seq<Widget>, i: int)
    requires 0 <= i < |ws| && TableListed(t, ws[i])
    requires forall j :: i < j < |ws| && ws[j].offset == ws[i].offset ==> !Eligible(t, ws[j])
    ensures ws[i].offset in Overlays(t, ws)
    ensures Overlays(t, ws)[ws[i].offset].target == ById(ws[i].id.value)
    ensures Lookup(t, ws[i].id.value) == Some(Overlays(t, ws)[ws[i].offset].key)
  {
    OverlaysAtLast(t, ws, i);
    var info := Overlays(t, ws)[ws[i].offset];
    LookupBinding(t, ws[i].id.value, info.key);
  }

  /** The self-declared rule: a `Jumpable` widget whose id is missing, empty
      or unknown to the table (an empty id counts as missing even when the
      table lists ""), and that no later eligible widget shares an offset
      with, leaves an entry with its own key targeting the widget itself. */
  lemma {:induction false} SelfDeclaredEntry(t: IdsToKeys, ws: seq<Widget>, i: int)
    requires 0 <= i < |ws|
    requires ws[i].id.None? || ws[i].id == Some("") || ws[i].id.value !in Ids(t)
    requires ws[i].jumpKey.Some?
    requires forall j :: i < j < |ws| && ws[j].offset == ws[i].offset ==> !Eligible(t, ws[j])
    ensures ws[i].offset in Overlays(t, ws)
    ensures Overlays(t, ws)[ws[i].offset] == JumpInfo(ws[i].jumpKey.value, Direct(ws[i]))
  {
    OverlaysAtLast(t, ws, i);
  }

  /** Overlapping widgets: when two eligible widgets share an offset, the
      entry there comes from a widget at or after the later one. */
  lemma {:induction false} LaterWins(t: IdsToKeys, ws: seq<Widget>, i: int, j: int)
    requires 0 <= i < j < |ws|
    requires Eligible(t, ws[i]) && Eligible(t, ws[j])
    requires ws[i].offset == ws[j].offset
    ensures ws[j].offset in Overlays(t, ws)
    ensures exists k :: (j <= k < |ws| && ws[k].offset == ws[j].offset
      && Classify(t, ws[k]) == Some(Overlays(t, ws)[ws[j].offset]))
  {
    LastEligibleExists(t, ws, j);
    var k :| j <= k < |ws| && ws[k].offset == ws[j].offset && LastEligibleAt(t, ws, k);
    OverlaysAtLast(t, ws, k);
  }

  /** The eligible widgets, in walk order. */
  function EligibleOnly(t: IdsToKeys, ws: seq<Widget>): (r: seq<Widget>)
    ensures forall w :: w in r ==> w in ws && Eligible(t, w)
  {
    if |ws| == 0 then []
    else
      var n := |ws| - 1;
      EligibleOnly(t, ws[..n]) + (if Eligible(t, ws[n]) then [ws[n]] else [])
  }

  /** Widgets matching neither rule contribute nothing: dropping them all
      leaves the overlay dictionary unchanged. */
  lemma {:induction false} IneligibleContributeNothing(t: IdsToKeys, ws: seq<Widget>)
    ensures Overlays(t, EligibleOnly(t, ws)) == Overlays(t, ws)
  {
    if |ws| > 0 {
      var n := |ws| - 1;
      var init := ws[..n];
      IneligibleContributeNothing(t, init);
      var p := EligibleOnly(t, init);
      var r := EligibleOnly(t, ws);
      if Eligible(t, ws[n]) {
        assert r == p + [ws[n]];
        assert r[..|r| - 1] == p;
        calc {
          Overlays(t, r);
          Overlays(t, p)[ws[n].offset := Classify(t, ws[n]).value];
          Overlays(t, init)[ws[n].offset := Classify(t, ws[n]).value];
          Overlays(t, ws);
        }
      } else {
        assert r == p;
        assert Overlays(t, ws) == Overlays(t, init);
      }
    }
  }

  /** No eligible widget, and in particular no widget at all, gives the
      empty dictionary. */
  lemma {:induction false} NoEligibleEmpty(t: IdsToKeys, ws: seq<Widget>)
    requires forall i :: 0 <= i < |ws| ==> !Eligible(t, ws[i])
    ensures Overlays(t, ws) == map[]
  {
    OverlaysDomain(t, ws);
    assert EligibleOffsets(t, ws) == {};
  }

  /** Where every entry comes from: a table target names an id the table
      lists, with a key the table hands out; a direct target is one of the
      walked widgets, with the key it declares. */
  lemma {:induction false} EntryProvenance(t: IdsToKeys, ws: seq<Widget>, o: Offset)
    requires o in Overlays(t, ws)
    ensures Overlays(t, ws)[o].target.ById? ==>
      && Binding(Overlays(t, ws)[o].target.id, Overlays(t, ws)[o].key) in t
      && Overlays(t, ws)[o].target.id in Ids(t)
      && Overlays(t, ws)[o].key in Values(t)
    ensures Overlays(t, ws)[o].target.Direct? ==>
      && Overlays(t, ws)[o].target.widget in ws
      && Overlays(t, ws)[o].target.widget.offset == o
      && Overlays(t, ws)[o].target.widget.jumpKey == Some(Overlays(t, ws)[o].key)
  {
    var info := Overlays(t, ws)[o];
    OverlaysProvenance(t, ws, o);
    var i :| 0 <= i < |ws| && ws[i].offset == o && Classify(t, ws[i]) == Some(info);
    if info.target.ById? {
      var j :| 0 <= j < |t| && t[j] == Binding(info.target.id, info.key);
      assert t[j].id in Ids(t) && t[j].key in Values(t);
    }
  }

  /** Resolving a pressed key through `keys_to_ids`: the key of every
      table-targeted entry is in the reverse table, which yields an id bound
      to that key; when the table hands out no key twice, it yields the
      entry's own id. */
  lemma ResolutionRoundTrip(t: IdsToKeys, ws: seq<Widget>, o: Offset)
    requires o in Overlays(t, ws) && Overlays(t, ws)[o].target.ById?
    ensures Overlays(t, ws)[o].key in KeysToIds(t)
    ensures Lookup(t, KeysToIds(t)[Overlays(t, ws)[o].key]) == Some(Overlays(t, ws)[o].key)
    ensures InjectiveKeys(t) ==> KeysToIds(t)[Overlays(t, ws)[o].key] == Overlays(t, ws)[o].target.id
  {
    var info := Overlays(t, ws)[o];
    EntryProvenance(t, ws, o);
    ReverseOfBinding(t, info.target.id, info.key);
  }
}
