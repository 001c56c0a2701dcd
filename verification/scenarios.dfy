/** Concrete jump sessions, stated over the model. */
module Scenarios {
  import opened Wrappers
  import opened JumpTable
  import opened Jumper

  /** Two listed widgets at distinct offsets give two entries, keyed by the
      table and targeting the ids. */
  lemma TwoListedWidgets()
    ensures
      var t: IdsToKeys := [Binding("url-bar", "u"), Binding("send-button", "s")];
      var url := Widget(0, Some("url-bar"), None, Offset(2, 1));
      var send := Widget(1, Some("send-button"), Some("x"), Offset(40, 1));
      Overlays(t, [url, send])
        == map[Offset(2, 1) := JumpInfo("u", ById("url-bar")),
               Offset(40, 1) := JumpInfo("s", ById("send-button"))]
  {
    var url := Widget(0, Some("url-bar"), None, Offset(2, 1));
    var send := Widget(1, Some("send-button"), Some("x"), Offset(40, 1));
    var t: IdsToKeys := [Binding("url-bar", "u"), Binding("send-button", "s")];
    assert t[1..] == [Binding("send-button", "s")];
    assert Classify(t, url) == Some(JumpInfo("u", ById("url-bar")));
    assert Classify(t, send) == Some(JumpInfo("s", ById("send-button")));
    assert [url, send][..1] == [url];
    assert [url][..0] == [];
    assert Overlays(t, [url]) == map[Offset(2, 1) := JumpInfo("u", ById("url-bar"))];
  }

  /** A widget unknown to the table that declares its own key is a direct
      target; a widget with an empty id is too, though "" is listed. */
  lemma SelfDeclaredWidgets()
    ensures
      var t: IdsToKeys := [Binding("", "e")];
      var tree := Widget(0, Some("collection-tree"), Some("c"), Offset(0, 3));
      var blank := Widget(1, Some(""), Some("b"), Offset(0, 9));
      Overlays(t, [tree, blank])
        == map[Offset(0, 3) := JumpInfo("c", Direct(tree)),
               Offset(0, 9) := JumpInfo("b", Direct(blank))]
  {
    var tree := Widget(0, Some("collection-tree"), Some("c"), Offset(0, 3));
    var blank := Widget(1, Some(""), Some("b"), Offset(0, 9));
    var t: IdsToKeys := [Binding("", "e")];
    assert t[1..] == [];
    assert Classify(t, tree) == Some(JumpInfo("c", Direct(tree)));
    assert Classify(t, blank) == Some(JumpInfo("b", Direct(blank)));
    assert [tree, blank][..1] == [tree];
    assert [tree][..0] == [];
    assert Overlays(t, [tree]) == map[Offset(0, 3) := JumpInfo("c", Direct(tree))];
  }

  /** Two ids sharing the key "x": the reverse table keeps the later one. */
  lemma SharedKeyLastWins()
    ensures
      var t: IdsToKeys := [Binding("a", "x"), Binding("b", "x")];
      KeysToIds(t) == map["x" := "b"]
  {
  }

  /** Overlapping widgets: the later one owns the offset. */
  lemma OverlapLaterWins()
    ensures
      var t: IdsToKeys := [Binding("a", "x")];
      var first := Widget(0, Some("a"), None, Offset(5, 5));
      var second := Widget(1, None, Some("y"), Offset(5, 5));
      Overlays(t, [first, second]) == map[Offset(5, 5) := JumpInfo("y", Direct(second))]
  {
    var first := Widget(0, Some("a"), None, Offset(5, 5));
    var second := Widget(1, None, Some("y"), Offset(5, 5));
    var t: IdsToKeys := [Binding("a", "x")];
    assert Classify(t, second) == Some(JumpInfo("y", Direct(second)));
    assert Classify(t, first) == Some(JumpInfo("x", ById("a")));
    assert [first, second][..1] == [first];
    assert [first][..0] == [];
    assert Overlays(t, [first]) == map[Offset(5, 5) := JumpInfo("x", ById("a"))];
  }
}
