/**
 * The page that owns the file store: the path-to-content record shown in the explorer,
 * the selected path, and `applyUpdates`, which the chat panel calls with the files of a
 * turn.
 */
module Home {
  import opened Js

  /** The record after assigning every update in order: `next[u.path] = u.content`. */
  function ApplyAll(r: Record, updates: seq<FileUpdate>): Record
    decreases |updates|
  {
    if updates == [] then r
    else
      var last := updates[|updates| - 1];
      Put(ApplyAll(r, updates[..|updates| - 1]), last.path, last.content)
  }

  /** The paths the updates mention. */
  function Paths(updates: seq<FileUpdate>): set<string> {
    set u | u in updates :: u.path
  }

  lemma PathsOfPrefix(updates: seq<FileUpdate>)
    requires updates != []
    ensures Paths(updates) == Paths(updates[..|updates| - 1]) + {updates[|updates| - 1].path}
  {
    var init := updates[..|updates| - 1];
    assert updates == init + [updates[|updates| - 1]];
    assert forall u | u in updates :: u in init || u == updates[|updates| - 1];
  }

  /** The keys afterwards are the old keys and the update paths. */
  lemma {:induction false} ApplyAllKeys(r: Record, updates: seq<FileUpdate>)
    ensures ApplyAll(r, updates).entries.Keys == r.entries.Keys + Paths(updates)
    decreases |updates|
  {
    if updates != [] {
      ApplyAllKeys(r, updates[..|updates| - 1]);
      PathsOfPrefix(updates);
    }
  }

  /** A path no update mentions keeps its content. */
  lemma {:induction false} ApplyAllUntouched(r: Record, updates: seq<FileUpdate>, p: string)
    requires p !in Paths(updates)
    ensures p in ApplyAll(r, updates).entries <==> p in r.entries
    ensures p in r.entries ==> ApplyAll(r, updates).entries[p] == r.entries[p]
    decreases |updates|
  {
    if updates != [] {
      PathsOfPrefix(updates);
      ApplyAllUntouched(r, updates[..|updates| - 1], p);
    }
  }

  /** A path gets the content of the last update that carries it. */
  lemma {:induction false} ApplyAllLastWins(r: Record, updates: seq<FileUpdate>, k: nat)
    requires k < |updates|
    requires forall j | k < j < |updates| :: updates[j].path != updates[k].path
    ensures updates[k].path in ApplyAll(r, updates).entries
    ensures ApplyAll(r, updates).entries[updates[k].path] == updates[k].content
    decreases |updates|
  {
    if k < |updates| - 1 {
      var init := updates[..|updates| - 1];
      assert init[k] == updates[k];
      ApplyAllLastWins(r, init, k);
    }
  }

  /** Existing keys keep their place in the key order; new paths are appended after them. */
  lemma {:induction false} ApplyAllKeepsOrder(r: Record, updates: seq<FileUpdate>)
    ensures |r.order| <= |ApplyAll(r, updates).order|
    ensures ApplyAll(r, updates).order[..|r.order|] == r.order
    ensures Paths(updates) <= r.entries.Keys ==> ApplyAll(r, updates).order == r.order
    decreases |updates|
  {
    if updates != [] {
      var init := updates[..|updates| - 1];
      ApplyAllKeepsOrder(r, init);
      PathsOfPrefix(updates);
      ApplyAllKeys(r, init);
      var mid := ApplyAll(r, init);
      var last := updates[|updates| - 1];
      if last.path !in mid.entries {
        assert (mid.order + [last.path])[..|r.order|] == mid.order[..|r.order|];
      }
    }
  }

  /** Applying the updates keeps the record's keys listed once each. */
  lemma {:induction false} ApplyAllValid(r: Record, updates: seq<FileUpdate>)
    requires r.Valid()
    ensures ApplyAll(r, updates).Valid()
    decreases |updates|
  {
    if updates != [] {
      ApplyAllValid(r, updates[..|updates| - 1]);
    }
  }

  /** Applying the same updates a second time changes nothing. */
  lemma ApplyAllIdempotent(r: Record, updates: seq<FileUpdate>)
    ensures ApplyAll(ApplyAll(r, updates), updates) == ApplyAll(r, updates)
  {
    var once := ApplyAll(r, updates);
    var twice := ApplyAll(once, updates);
    ApplyAllKeys(r, updates);
    ApplyAllKeys(once, updates);
    ApplyAllKeepsOrder(once, updates);
    forall p | p in twice.entries
      ensures p in once.entries && twice.entries[p] == once.entries[p]
    {
      if p in Paths(updates) {
        var k := LastIndexOf(updates, p);
        ApplyAllLastWins(r, updates, k);
        ApplyAllLastWins(once, updates, k);
      } else {
        ApplyAllUntouched(once, updates, p);
      }
    }
    assert twice.entries == once.entries;
  }

  /** The index of the last update carrying `p`. */
  function LastIndexOf(updates: seq<FileUpdate>, p: string): (k: nat)
    requires p in Paths(updates)
    ensures k < |updates| && updates[k].path == p
    ensures forall j | k < j < |updates| :: updates[j].path != p
  {
    PathsOfPrefix(updates);
    if updates[|updates| - 1].path == p then |updates| - 1
    else LastIndexOf(updates[..|updates| - 1], p)
  }

  // ---------------------------------------------------------------------------
  // the page state

  /** The starter project shown before any chat turn. */
  const InitialFiles: Record := Record(
    ["layout.tsx", "page.tsx", "globals.css", "lib/constants.ts"],
    map[
      "layout.tsx" :=
        "export default function RootLayout({ children }: { children: React.ReactNode }) {\n"
        + "  return (\n"
        + "    <html lang='en'>\n"
        + "      <body>{children}</body>\n"
        + "    </html>\n"
        + "  )\n"
        + "}",
      "page.tsx" :=
        "export default function Page() {\n"
        + "  return <div>Hello</div>\n"
        + "}",
      "globals.css" := ":root{color-scheme:dark light}\nbody{margin:0}",
      "lib/constants.ts" := "export const SITE_NAME = 'Example'\n"
    ])

  const InitialSelected: string := "lib/constants.ts"

  /** The initial selection names a seed file, and the seed lists each key once. */
  lemma InitialStateConsistent()
    ensures InitialFiles.Valid()
    ensures InitialSelected in InitialFiles.entries
  {
  }

  class Page {
    var files: Record
    var selected: string

    ghost predicate Valid()
      reads this
    {
      files.Valid()
    }

    constructor ()
      ensures Valid()
      ensures files == InitialFiles && selected == InitialSelected
    {
      files := InitialFiles;
      selected := InitialSelected;
    }

    /**
     * `applyUpdates`: nothing happens for a missing or empty list; otherwise a copy of the
     * record is overwritten update by update, stored, and the first update's path becomes
     * the selection.
     */
    method ApplyUpdates(updates: Option<seq<FileUpdate>>)
      requires Valid()
      modifies this
      ensures Valid()
      ensures updates.None? || updates.value == [] ==> files == old(files) && selected == old(selected)
      ensures updates.Some? && updates.value != [] ==>
        files == ApplyAll(old(files), updates.value) && selected == updates.value[0].path
    {
      if updates.None? || |updates.value| == 0 {
        return;
      }
      var us := updates.value;
      var next := files;
      for i := 0 to |us|
        invariant next == ApplyAll(files, us[..i])
      {
        assert us[..i + 1][..i] == us[..i];
        next := Put(next, us[i].path, us[i].content);
      }
      assert us[..|us|] == us;
      ApplyAllValid(files, us);
      files := next;
      selected := us[0].path;
    }
  }
}
