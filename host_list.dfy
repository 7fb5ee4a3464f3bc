/**
 * The list logic of the host explorer's URI table: the stored list of
 * known host URIs (a settings value), its sanitised reading with the
 * local host forced first, adding and removing entries, the URI-to-row
 * assignment of the table and the test that decides when the table is
 * rebuilt, and the accept/reject rule of the URI entry box.
 *
 * Qt widgets, timers, futures, tool tips and remote node queries are
 * not modelled; the settings store is a field holding the stored list.
 */
module HostList {

  /** The host that every reading of the list starts with. */
  const LOCALHOST: string := "tcp://localhost"

  /** The placeholder text of the entry box. */
  const DEFAULT_URI: string := "tcp://"

  predicate NoDups(s: seq<string>)
  {
    forall i, j :: 0 <= i < j < |s| ==> s[i] != s[j]
  }

  /**
   * Reference definition: the first occurrence of every element of `s`,
   * in the order in which they first occur.
   */
  function FirstOccurrences(s: seq<string>): seq<string>
  {
    if s == [] then []
    else
      var init := s[..|s| - 1];
      FirstOccurrences(init) + (if s[|s| - 1] in init then [] else [s[|s| - 1]])
  }

  /** The first occurrences hold exactly the elements of `s`. */
  lemma {:induction false} FirstOccurrencesMembers(s: seq<string>)
    ensures forall x :: x in FirstOccurrences(s) <==> x in s
  {
    if s != [] {
      var init := s[..|s| - 1];
      FirstOccurrencesMembers(init);
      assert s == init + [s[|s| - 1]];
    }
  }

  /** The first occurrences of a non-empty list start with its head. */
  lemma {:induction false} FirstOccurrencesHead(s: seq<string>)
    requires |s| > 0
    ensures |FirstOccurrences(s)| > 0 && FirstOccurrences(s)[0] == s[0]
  {
    var init := s[..|s| - 1];
    if |init| == 0 {
      assert FirstOccurrences(s) == [s[0]];
    } else {
      FirstOccurrencesHead(init);
      assert init[0] == s[0];
    }
  }

  /** The first occurrences are duplicate-free. */
  lemma {:induction false} FirstOccurrencesNoDups(s: seq<string>)
    ensures NoDups(FirstOccurrences(s))
  {
    if s != [] {
      var init := s[..|s| - 1];
      var x := s[|s| - 1];
      FirstOccurrencesNoDups(init);
      if x !in init {
        FirstOccurrencesMembers(init);
        var head := FirstOccurrences(init);
        var r := head + [x];
        assert FirstOccurrences(s) == r;
        forall i, j | 0 <= i < j < |r| ensures r[i] != r[j] {
          assert r[i] == head[i];
          if j == |head| {
            assert r[i] in init;
          } else {
            assert r[j] == head[j];
          }
        }
      }
    }
  }

  /** The first occurrences are duplicate-free, hold exactly the elements of `s` and start with its head. */
  lemma FirstOccurrencesFacts(s: seq<string>)
    ensures NoDups(FirstOccurrences(s))
    ensures forall x :: x in FirstOccurrences(s) <==> x in s
    ensures |s| > 0 ==> |FirstOccurrences(s)| > 0 && FirstOccurrences(s)[0] == s[0]
  {
    FirstOccurrencesMembers(s);
    FirstOccurrencesNoDups(s);
    if |s| > 0 {
      FirstOccurrencesHead(s);
    }
  }

  /** The accumulating loop of `getHostUriList`: push each URI not seen yet. */
  function AppendNew(noDups: seq<string>, uris: seq<string>): seq<string>
    decreases |uris|
  {
    if uris == [] then noDups
    else AppendNew(if uris[0] in noDups then noDups else noDups + [uris[0]], uris[1..])
  }

  /** Extending a list by one element extends its first occurrences by that element, if new. */
  lemma FirstOccurrencesSnoc(prefix: seq<string>, x: string)
    ensures FirstOccurrences(prefix + [x])
      == FirstOccurrences(prefix) + (if x in prefix then [] else [x])
  {
    var extended := prefix + [x];
    assert extended[..|extended| - 1] == prefix;
  }

  /** One round of the loop: push `uris[0]` when it has not been seen. */
  lemma AppendNewUnfold(seen: seq<string>, next: seq<string>, uris: seq<string>)
    requires uris != []
    requires next == seen + (if uris[0] in seen then [] else [uris[0]])
    ensures AppendNew(seen, uris) == AppendNew(next, uris[1..])
  {
  }

  /** One round of the loop turns the first occurrences of `prefix` into those of `prefix + [x]`. */
  lemma AppendNewStep(prefix: seq<string>, uris: seq<string>)
    requires uris != []
    ensures AppendNew(FirstOccurrences(prefix), uris)
      == AppendNew(FirstOccurrences(prefix + [uris[0]]), uris[1..])
  {
    var x := uris[0];
    FirstOccurrencesFacts(prefix);
    assert x in FirstOccurrences(prefix) <==> x in prefix;
    FirstOccurrencesSnoc(prefix, x);
    AppendNewUnfold(FirstOccurrences(prefix), FirstOccurrences(prefix + [x]), uris);
  }

  /** The loop computes the first occurrences of everything it has seen. */
  lemma {:induction false} AppendNewIsFirstOccurrences(prefix: seq<string>, uris: seq<string>)
    ensures AppendNew(FirstOccurrences(prefix), uris) == FirstOccurrences(prefix + uris)
    decreases |uris|
  {
    if uris == [] {
      assert prefix + uris == prefix;
    } else {
      var moved := prefix + [uris[0]];
      AppendNewStep(prefix, uris);
      AppendNewIsFirstOccurrences(moved, uris[1..]);
      MoveHead(prefix, uris);
    }
  }

  /** Moving the head of `uris` to the end of `prefix` keeps the concatenation. A regrouping of concatenations only; kept as its own lemma so that the proof using it stays small and stable. */
  lemma MoveHead(prefix: seq<string>, uris: seq<string>)
    requires uris != []
    ensures (prefix + [uris[0]]) + uris[1..] == prefix + uris
  {
  }

  /** Putting an element in front of a list that lacks it keeps it duplicate-free. */
  lemma NoDupsCons(x: string, s: seq<string>)
    requires x !in s && NoDups(s)
    ensures NoDups([x] + s)
  {
    var t := [x] + s;
    forall i, j | 0 <= i < j < |t| ensures t[i] != t[j] {
      assert t[j] == s[j - 1];
      if i > 0 {
        assert t[i] == s[i - 1];
      }
    }
  }

  /** When nothing in `uris` repeats or is already in `noDups`, the loop keeps all of it. */
  lemma {:induction false} AppendNewFresh(noDups: seq<string>, uris: seq<string>)
    requires NoDups(noDups + uris)
    ensures AppendNew(noDups, uris) == noDups + uris
    decreases |uris|
  {
    if uris == [] {
      assert noDups + uris == noDups;
    } else {
      var all := noDups + uris;
      assert all[|noDups|] == uris[0];
      assert uris[0] !in noDups by {
        forall i | 0 <= i < |noDups| ensures noDups[i] != uris[0] {
          assert all[i] == noDups[i];
        }
      }
      assert (noDups + [uris[0]]) + uris[1..] == all;
      AppendNewFresh(noDups + [uris[0]], uris[1..]);
    }
  }

  /**
   * `getHostUriList`: the stored URIs with the local host pushed in
   * front, each kept at its first occurrence only.
   */
  function GetHostUriList(stored: seq<string>): (r: seq<string>)
    ensures |r| > 0 && r[0] == LOCALHOST
  {
    GetHostUriListIsFirstOccurrences(stored);
    FirstOccurrencesHead([LOCALHOST] + stored);
    AppendNew([], [LOCALHOST] + stored)
  }

  /** The loop of `getHostUriList` keeps the first occurrence of every URI, local host first. */
  lemma GetHostUriListIsFirstOccurrences(stored: seq<string>)
    ensures AppendNew([], [LOCALHOST] + stored) == FirstOccurrences([LOCALHOST] + stored)
  {
    AppendNewIsFirstOccurrences([], [LOCALHOST] + stored);
    assert [] + ([LOCALHOST] + stored) == [LOCALHOST] + stored;
  }

  /** The sanitised list has no duplicates and lists the local host and every stored URI. */
  lemma GetHostUriListContents(stored: seq<string>)
    ensures NoDups(GetHostUriList(stored))
    ensures forall u :: u in GetHostUriList(stored) <==> u == LOCALHOST || u in stored
  {
    var all := [LOCALHOST] + stored;
    GetHostUriListIsFirstOccurrences(stored);
    FirstOccurrencesFacts(all);
    forall u ensures u in all <==> u == LOCALHOST || u in stored {
      if u in stored {
        var i :| 0 <= i < |stored| && stored[i] == u;
        assert all[i + 1] == u;
      }
    }
  }

  /** A list that starts with the local host and has no duplicates reads back as itself. */
  lemma ListedIsStable(uris: seq<string>)
    requires |uris| > 0 && uris[0] == LOCALHOST && NoDups(uris)
    ensures GetHostUriList(uris) == uris
  {
    var all := [LOCALHOST] + uris;
    assert all[1..] == uris;
    assert [] + [all[0]] == [LOCALHOST];
    assert AppendNew([], all) == AppendNew([LOCALHOST], uris);
    assert uris[1..][..] == uris[1..];
    assert AppendNew([LOCALHOST], uris) == AppendNew([LOCALHOST], uris[1..]);
    assert [LOCALHOST] + uris[1..] == uris;
    AppendNewFresh([LOCALHOST], uris[1..]);
  }

  /** Writing the sanitised list back to the settings changes nothing that is read. */
  lemma ReadBackIsIdempotent(stored: seq<string>)
    ensures GetHostUriList(GetHostUriList(stored)) == GetHostUriList(stored)
  {
    GetHostUriListContents(stored);
    ListedIsStable(GetHostUriList(stored));
  }

  /** Appending a URI that is not listed makes it the last listed entry. */
  lemma AddAppends(stored: seq<string>, uri: string)
    requires uri !in GetHostUriList(stored)
    ensures GetHostUriList(GetHostUriList(stored) + [uri]) == GetHostUriList(stored) + [uri]
  {
    var before := GetHostUriList(stored);
    GetHostUriListContents(stored);
    var after := before + [uri];
    assert after[0] == LOCALHOST;
    assert NoDups(after) by {
      forall i, j | 0 <= i < j < |after| ensures after[i] != after[j] {
        if j == |before| {
          assert after[i] == before[i];
        } else {
          assert after[i] == before[i] && after[j] == before[j];
        }
      }
    }
    ListedIsStable(after);
  }

  /** `std::find` followed by `erase`: drop the first occurrence. */
  function RemoveFirst(s: seq<string>, x: string): (r: seq<string>)
    requires x in s
    ensures |r| == |s| - 1
  {
    assert s == [s[0]] + s[1..];
    if s[0] == x then s[1..] else [s[0]] + RemoveFirst(s[1..], x)
  }

  /** Removal takes out one occurrence of `x` and keeps every other entry. */
  lemma {:induction false} RemoveFirstCount(s: seq<string>, x: string)
    requires x in s
    ensures multiset(RemoveFirst(s, x)) == multiset(s) - multiset{x}
  {
    assert s == [s[0]] + s[1..];
    if s[0] != x {
      RemoveFirstCount(s[1..], x);
    }
  }

  /** In a duplicate-free list, removal takes exactly the one element out. */
  lemma {:induction false} RemoveFirstNoDups(s: seq<string>, x: string)
    requires x in s && NoDups(s)
    ensures NoDups(RemoveFirst(s, x))
    ensures forall y :: y in RemoveFirst(s, x) <==> y in s && y != x
  {
    assert s == [s[0]] + s[1..];
    assert NoDups(s[1..]);
    if s[0] == x {
      assert x !in s[1..];
    } else {
      RemoveFirstNoDups(s[1..], x);
      NoDupsCons(s[0], RemoveFirst(s[1..], x));
    }
  }

  /**
   * Removing a listed URI: the local host stays listed (every reading
   * puts it back in front); any other URI disappears and the rest keep
   * their order.
   */
  lemma RemoveEffect(stored: seq<string>, uri: string)
    requires uri in GetHostUriList(stored)
    ensures var before := GetHostUriList(stored);
      GetHostUriList(RemoveFirst(before, uri))
        == if uri == LOCALHOST then before else RemoveFirst(before, uri)
  {
    var before := GetHostUriList(stored);
    GetHostUriListContents(stored);
    var rest := RemoveFirst(before, uri);
    RemoveFirstNoDups(before, uri);
    if uri == LOCALHOST {
      assert rest == before[1..];
      assert [LOCALHOST] + rest == before;
      assert [] + [before[0]] == [LOCALHOST];
      assert AppendNew([], before) == AppendNew([LOCALHOST], rest);
      AppendNewFresh([LOCALHOST], rest);
    } else {
      assert before == [before[0]] + before[1..];
      assert rest[0] == LOCALHOST;
      ListedIsStable(rest);
    }
  }

  /** The table's rows follow the list: row 0 is the entry row, URI i sits on row i + 1. */
  ghost predicate RowsFollowList(uris: seq<string>, rows: map<string, nat>)
  {
    && (forall u :: u in rows <==> u in uris)
    && (forall i :: 0 <= i < |uris| ==> uris[i] in rows && rows[uris[i]] == i + 1)
  }

  /** `handleUpdateStatus`'s change test: the sizes differ or some listed URI has no row. */
  predicate NeedsReload(uris: seq<string>, rows: map<string, nat>)
  {
    |rows| != |uris| || exists u :: u in uris && u !in rows
  }

  /** A duplicate-free list has as many distinct elements as entries. */
  lemma {:induction false} DistinctCount(s: seq<string>)
    requires NoDups(s)
    ensures |set u | u in s| == |s|
  {
    if s != [] {
      var init := s[..|s| - 1];
      assert NoDups(init);
      DistinctCount(init);
      assert (set u | u in s) == (set u | u in init) + {s[|s| - 1]};
      assert s[|s| - 1] !in (set u | u in init);
    }
  }

  /**
   * For a sanitised list, the change test fires exactly when the row
   * map's keys are not the listed URIs.
   */
  lemma NeedsReloadIff(uris: seq<string>, rows: map<string, nat>)
    requires NoDups(uris)
    ensures NeedsReload(uris, rows) <==> rows.Keys != (set u | u in uris)
  {
    var listed := set u | u in uris;
    DistinctCount(uris);
    if !NeedsReload(uris, rows) {
      assert listed <= rows.Keys;
      assert |rows.Keys| == |listed|;
      var extra := rows.Keys - listed;
      assert |rows.Keys| == |listed| + |extra|;
      assert extra == {};
    }
  }

  /** The rows of the first `n` URIs are assigned, and nothing else is. */
  ghost predicate RowsFollowPrefix(uris: seq<string>, n: nat, rows: map<string, nat>)
    requires n <= |uris|
  {
    && (forall u :: u in rows ==> u in uris[..n])
    && (forall k :: 0 <= k < n ==> uris[k] in rows && rows[uris[k]] == k + 1)
  }

  /** One round of `reloadTable`'s loop: URI `n` gets row `n + 1`. */
  lemma RowsStep(uris: seq<string>, n: nat, rows: map<string, nat>)
    requires n < |uris| && NoDups(uris) && RowsFollowPrefix(uris, n, rows)
    ensures RowsFollowPrefix(uris, n + 1, rows[uris[n] := n + 1])
  {
    assert uris[..n + 1] == uris[..n] + [uris[n]];
    forall k | 0 <= k < n ensures uris[k] != uris[n] {
    }
  }

  /** After the loop the rows follow the whole list and the change test finds nothing. */
  lemma RowsComplete(uris: seq<string>, rows: map<string, nat>)
    requires NoDups(uris) && RowsFollowPrefix(uris, |uris|, rows)
    ensures RowsFollowList(uris, rows) && !NeedsReload(uris, rows)
  {
    assert uris[..|uris|] == uris;
    assert rows.Keys == set u | u in uris;
    NeedsReloadIff(uris, rows);
  }

  class HostSelectionTable {
    /** The settings value "HostExplorer/uris". */
    var stored: seq<string>
    /** `_uriToRow`. */
    var uriToRow: map<string, nat>
    /** The table widget's row count. */
    var rowCount: nat
    /** Error messages shown in the tool tip, in order. */
    var errors: seq<string>
    /** The number of `hostUriListChanged` signals emitted. */
    var listChanges: nat

    /** Creates the entry row, then loads the table from the stored list. */
    constructor (settings: seq<string>)
      ensures stored == settings
      ensures RowsFollowList(GetHostUriList(stored), uriToRow)
      ensures rowCount == |GetHostUriList(stored)| + 1
      ensures errors == [] && listChanges == 0
    {
      stored := settings;
      uriToRow := map[];
      rowCount := 1;
      errors := [];
      listChanges := 0;
      new;
      ReloadTable();
    }

    /**
     * `hostUriList`: what the table currently lists — the local host first,
     * then every stored URI, each once.
     */
    function HostUriList(): (r: seq<string>)
      reads this
      ensures r == GetHostUriList(stored)
      ensures |r| > 0 && r[0] == LOCALHOST && NoDups(r)
      ensures forall u :: u in r <==> u == LOCALHOST || u in stored
    {
      GetHostUriListContents(stored);
      GetHostUriList(stored)
    }

    /**
     * `reloadTable`: rebuilds the row map from the list, one row per URI
     * after the entry row, then runs the status update, which finds
     * nothing changed.
     */
    method ReloadTable()
      modifies this
      decreases 1
      ensures stored == old(stored) && errors == old(errors) && listChanges == old(listChanges)
      ensures RowsFollowList(GetHostUriList(stored), uriToRow)
      ensures !NeedsReload(GetHostUriList(stored), uriToRow)
      ensures rowCount == |GetHostUriList(stored)| + 1
    {
      var uris := GetHostUriList(stored);
      GetHostUriListContents(stored);
      var row := 1;
      uriToRow := map[];
      var i := 0;
      while i < |uris|
        invariant 0 <= i <= |uris| && row == i + 1
        invariant uris == GetHostUriList(stored)
        invariant stored == old(stored) && errors == old(errors) && listChanges == old(listChanges)
        invariant RowsFollowPrefix(uris, i, uriToRow)
        invariant i > 0 ==> rowCount == i + 1
      {
        rowCount := row + 1;
        RowsStep(uris, i, uriToRow);
        uriToRow := uriToRow[uris[i] := row];
        row := row + 1;
        i := i + 1;
      }
      RowsComplete(uris, uriToRow);
      HandleUpdateStatus();
    }

    /**
     * `handleUpdateStatus`: rebuilds the table when the list no longer
     * matches the row map; otherwise only the status columns are
     * refreshed, which this model does not track.
     */
    method HandleUpdateStatus()
      modifies this
      decreases if NeedsReload(GetHostUriList(stored), uriToRow) then 2 else 0
      ensures stored == old(stored) && errors == old(errors) && listChanges == old(listChanges)
      ensures !NeedsReload(GetHostUriList(stored), uriToRow)
      ensures !NeedsReload(GetHostUriList(stored), old(uriToRow)) ==>
        uriToRow == old(uriToRow) && rowCount == old(rowCount)
      ensures NeedsReload(GetHostUriList(stored), old(uriToRow)) ==>
        && RowsFollowList(GetHostUriList(stored), uriToRow)
        && rowCount == |GetHostUriList(stored)| + 1
    {
      var uris := GetHostUriList(stored);
      if NeedsReload(uris, uriToRow) {
        ReloadTable();
      }
    }

    /** `handleAdd`: refuses a listed URI with an error, otherwise appends it and reloads. */
    method HandleAdd(uri: string)
      modifies this
      ensures var before := GetHostUriList(old(stored));
        if uri in before then
          && stored == old(stored) && uriToRow == old(uriToRow) && rowCount == old(rowCount)
          && listChanges == old(listChanges)
          && errors == old(errors) + [uri + " already exists"]
        else
          && stored == before + [uri]
          && GetHostUriList(stored) == before + [uri]
          && RowsFollowList(GetHostUriList(stored), uriToRow)
          && rowCount == |before| + 2
          && errors == old(errors) && listChanges == old(listChanges) + 1
    {
      var uris := GetHostUriList(stored);
      if uri in uris {
        errors := errors + [uri + " already exists"];
        return;
      }
      AddAppends(stored, uri);
      stored := uris + [uri];
      ReloadTable();
      listChanges := listChanges + 1;
    }

    /**
     * `handleRemove`: erases the URI from the list and reloads. The URI
     * comes from a row's remove button, so it is listed; erasing the
     * position `std::find` returns for an absent URI is undefined.
     */
    method HandleRemove(uri: string)
      requires uri in GetHostUriList(stored)
      modifies this
      ensures stored == RemoveFirst(GetHostUriList(old(stored)), uri)
      ensures GetHostUriList(stored) == if uri == LOCALHOST then GetHostUriList(old(stored)) else stored
      ensures RowsFollowList(GetHostUriList(stored), uriToRow)
      ensures errors == old(errors) && listChanges == old(listChanges) + 1
    {
      var uris := GetHostUriList(stored);
      RemoveEffect(stored, uri);
      stored := RemoveFirst(uris, uri);
      ReloadTable();
      listChanges := listChanges + 1;
    }
  }

  /** The URI entry box. */
  class HostUriLineEdit {
    var text: string
    /** The `handleUriEntered` signals emitted, in order. */
    var entered: seq<string>

    constructor ()
      ensures text == "" && entered == []
    {
      text := "";
      entered := [];
    }

    /**
     * `handleReturnPressed`: the placeholder "tcp://" and the empty text
     * are ignored; anything else is emitted and the box is cleared.
     */
    method HandleReturnPressed()
      modifies this
      ensures old(text) == DEFAULT_URI || old(text) == "" ==>
        text == old(text) && entered == old(entered)
      ensures old(text) != DEFAULT_URI && old(text) != "" ==>
        text == "" && entered == old(entered) + [old(text)]
    {
      if text == DEFAULT_URI {
        return;
      }
      if text == "" {
        return;
      }
      entered := entered + [text];
      text := "";
    }
  }
}
