# Jump-target resolver of posting's `Jumper`

A Dafny model of the quick-jump mechanism in `src/posting/jumper.py`. Each
widget on screen that can be jumped to gets a key. Pressing that key moves
focus to the widget. The model covers the two computations of `Jumper`:

- the reverse table `keys_to_ids`, which the constructor derives from the
  static `ids_to_keys` table by inverting it in insertion order;
- `_get_overlays`, which walks the screen's widgets in walk order and
  builds a dictionary from screen offset to `JumpInfo(key, widget)`.

`_get_overlays` applies a two-tier rule to each widget:

1. A widget with a truthy id that the table lists gets the table's key.
   It is referred to by its id string.
2. Otherwise, a `Jumpable` widget gets its own `jump_key`. It is referred
   to directly.
3. Any other widget is skipped.

A later eligible widget at the same offset overwrites an earlier one.

Modules:

- `Wrappers` (`wrappers.dfy`): `Option`.
- `JumpTable` (`jump_table.dfy`): `ids_to_keys` as `IdsToKeys`, a sequence
  of `Binding(id, key)` with distinct ids in insertion order. Also `Lookup`
  and the reverse table `KeysToIds`.
- `Jumper` (`jumper.dfy`): `Widget`, `Target` (`ById` or `Direct`),
  `JumpInfo`, and the per-widget rule `Classify`. It holds the fold
  `Overlays`, the loop `GetOverlays` as the source writes it, and the
  declarative description `IsJumpMap` with the lemmas that tie them together.
- `Scenarios` (`scenarios.dfy`): concrete cases.

Host-framework values are inputs to the model. The widget tree from
`screen.walk_children` is a `seq<Widget>`. The offset from
`screen.get_offset` is a field of `Widget`. The `Jumpable` protocol check is
an optional `jumpKey`. A widget's object identity is an opaque `handle`.

Two points of the code shape the model:

- `keys_to_ids` is built once, in `__init__`, from `ids_to_keys` (line 32).
  It is not built from the overlay's entries.
- `child.id and ...` (line 46) treats an empty-string id as no id. Such a
  widget falls through to the `Jumpable` rule, even when `""` is a key of
  the table.

## Model

| member | source | states |
|---|---|---|
| JumpTable.Lookup | src/posting/jumper.py:46-48 | the lookup succeeds exactly for ids the table lists, and the key it returns is bound to that id in the table |
| JumpTable.LookupBinding | src/posting/jumper.py:44-48 | since the ids of the mapping are distinct, `Lookup(id)` returns `k` exactly when `id: k` is an item of the table |
| JumpTable.KeysToIdsDomain | src/posting/jumper.py:32 | the reverse table's domain is exactly the set of the table's values |
| JumpTable.KeysToIdsSound | src/posting/jumper.py:32 | every `keys_to_ids[k]` is an id that the table maps to `k` |
| JumpTable.KeysToIdsLastWins | src/posting/jumper.py:32 | if two ids share a key, the reverse entry is the id of the last binding in table order that hands out that key |
| JumpTable.KeysToIdsRoundTrip | src/posting/jumper.py:32 | when no key is handed out twice, `keys_to_ids[ids_to_keys[id]] == id` for every listed id |
| JumpTable.KeysToIdsThenLookup | src/posting/jumper.py:32 | in the other direction, which holds even with shared keys, `ids_to_keys[keys_to_ids[k]] == k` |
| JumpTable.ReverseOfBinding | src/posting/jumper.py:32 | for every item `id: k` of the table, `keys_to_ids` has an entry for `k`. That entry is an id bound to `k`, and it is `id` itself when no key is shared |
| Jumper.Classify | src/posting/jumper.py:46-55 | a widget is skipped exactly when it has no listed truthy id and no jump key. A listed truthy id always wins over the widget's own jump key and gives an id target bound to the key in the table. A direct target is the widget itself, carrying its declared key |
| Jumper.OverlaysDomain | src/posting/jumper.py:39-57 | the dictionary's domain is exactly the set of offsets of eligible widgets |
| Jumper.OverlaysProvenance | src/posting/jumper.py:45-55 | every entry is what some walked widget at that offset contributes |
| Jumper.OverlaysAtLast | src/posting/jumper.py:45-55 | the entry at an offset is what the last eligible widget at that offset, in walk order, contributes |
| Jumper.LastEligibleExists | src/posting/jumper.py:45-55 | every eligible widget has a last eligible widget at its own offset, at or after it in walk order |
| Jumper.OverlaysIsJumpMap | src/posting/jumper.py:39-57 | the fold meets the declarative description: one entry per eligible offset, each taken from the last eligible widget there |
| Jumper.JumpMapUnique | src/posting/jumper.py:39-57 | the declarative description has exactly one solution, so it determines the dictionary completely |
| Jumper.GetOverlays | src/posting/jumper.py:39-57 | the loop as written, which starts from an empty dictionary and assigns once per widget, returns exactly the fold `Overlays`, and so a dictionary that meets the declarative description |
| Jumper.TableRuleEntry | src/posting/jumper.py:46-50 | a listed widget with a truthy id, not overwritten later, has an entry at its offset whose target is its id and whose key is `ids_to_keys[id]` |
| Jumper.SelfDeclaredEntry | src/posting/jumper.py:46-55 | a widget with a jump key whose id is missing, empty (even when `""` is listed) or unlisted, and which is not overwritten later, has an entry with its own key that targets the widget directly |
| Jumper.LaterWins | src/posting/jumper.py:47-55 | if two eligible widgets share an offset, the stored entry comes from the later one or from a widget after it |
| Jumper.IneligibleContributeNothing | src/posting/jumper.py:45-55 | removing every widget that matches neither rule leaves the dictionary unchanged |
| Jumper.NoEligibleEmpty | src/posting/jumper.py:43-57 | with no eligible widget, including an empty widget list, the result is the empty dictionary |
| Jumper.EntryProvenance | src/posting/jumper.py:47-55 | an id target names an id the table lists, and its key is a value of the table. A direct target is one of the walked widgets, at that offset, with that key as its `jump_key` |
| Jumper.ResolutionRoundTrip | src/posting/jumper.py:32-50 | the key of every id-targeted entry is in `keys_to_ids`, which yields an id bound to that key. When keys are not shared, it yields the entry's own id |
| Scenarios.TwoListedWidgets | src/posting/jumper.py:46-50 | two listed widgets at distinct offsets give two id-targeted entries with the table's keys. A listed widget's own jump key is ignored |
| Scenarios.SelfDeclaredWidgets | src/posting/jumper.py:46-55 | an unlisted `Jumpable` widget, and one whose id is empty though `""` is listed, become direct targets with their own keys |
| Scenarios.SharedKeyLastWins | src/posting/jumper.py:32 | two ids sharing key `"x"` leave `"x"` mapped to the later id |
| Scenarios.OverlapLaterWins | src/posting/jumper.py:47-55 | of two eligible widgets at one offset, the later widget's entry is kept |

## Left out

- `make_overlay` and `JumpOverlay` (lines 35-37): these render the overlay, and `posting/jump_overlay.py` is not part of this model. Key capture, modal input and focus application happen there or in the application, not in `jumper.py`.
- Textual's `App`, `screen`, `walk_children` and `get_offset`: these are framework calls. They are replaced by an input sequence of widgets, in walk order, each with an `offset` field.
- `screen.get_offset(child)` (lines 47 and 52) is called without a guard. The model assumes it returns an offset for every eligible widget. An exception raised by that call is not modelled.
- The `runtime_checkable` `Jumpable` protocol and `isinstance`: these are replaced by an optional `jumpKey` field.
- Stale or unmounted widget references: nothing in the modelled code checks liveness. A direct target is the widget value captured during the walk.
- Idempotence of `_get_overlays` on an unchanged tree: this holds by construction, because `Overlays` is a function of the table and the widget sequence.
- Jumper.ResolutionRoundTrip: assumes the caller's `ids_to_keys` mapping does not change after construction. `__init__` keeps a reference to that mapping (line 31), `_get_overlays` reads it when it runs (line 44), and `keys_to_ids` is a copy made once (line 32). An id added to the mapping later would get an overlay entry whose key `keys_to_ids` lacks. The model uses one immutable table for both, which is reasonable because the parameter is typed `Mapping` (read-only) and the table is a static configuration.
