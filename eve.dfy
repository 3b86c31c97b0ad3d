/** eve.py: finding the running EVE clients from the titles of the visible
    top-level windows (`get_eve_windows`), and keeping the client dropdown in
    step with them (`refresh_eve_clients`). The window system is an input: the
    windows the enumeration callback is called on, in enumeration order. */
module Eve {
  import opened Text

  /** `EVE_PREFIX`: a client's window title is this prefix and the character name. */
  const EvePrefix: string := "EVE - "

  /** What the dropdown shows when no client is running. */
  const Placeholder: string := "No EVE clients found"

  /** A window as the callback sees it: whether it is visible, the title length
      reported, the number of characters `GetWindowTextW` copied and the text
      in the buffer; or a window on which one of those calls raises. */
  datatype Window = Window(visible: bool, textLength: int, copied: int, title: string) | Failing

  /** What the callback contributes for one window: the title with every
      occurrence of the prefix removed, for a visible, titled EVE window. */
  function ClientName(w: Window): (r: Option<string>)
    ensures r.Some? <==> w.Window? && w.visible && w.textLength > 0 && w.copied > 0 && StartsWith(w.title, EvePrefix)
  {
    if w.Window? && w.visible && w.textLength > 0 && w.copied > 0 && StartsWith(w.title, EvePrefix) then
      Some(ReplaceAll(w.title, EvePrefix, ""))
    else None
  }

  /** The names of the clients among `ws`, in enumeration order. */
  function ClientNames(ws: seq<Window>): (r: seq<string>)
    ensures |r| <= |ws|
  {
    if ws == [] then [] else ClientNames(ws[..|ws| - 1]) + Contribution(ws[|ws| - 1])
  }

  function Contribution(w: Window): seq<string> {
    match ClientName(w)
    case None => []
    case Some(n) => [n]
  }

  /** `get_eve_windows`: call the callback on each window in turn; a window on
      which the callback raises is skipped and the enumeration goes on. */
  method GetEveWindows(windows: seq<Window>) returns (clients: seq<string>)
    ensures clients == ClientNames(windows)
  {
    clients := [];
    for k := 0 to |windows|
      invariant clients == ClientNames(windows[..k])
    {
      assert windows[..k + 1][..k] == windows[..k];
      var w := windows[k];
      if w.Failing? {
        continue;
      }
      if w.visible {
        if w.textLength > 0 {
          if w.copied > 0 {
            var title := w.title;
            if StartsWith(title, EvePrefix) {
              clients := clients + [ReplaceAll(title, EvePrefix, "")];
            }
          }
        }
      }
    }
    assert windows[..|windows|] == windows;
  }

  /** Enumerating two batches of windows gives the clients of the first batch,
      then those of the second. */
  lemma {:induction false} ClientNamesAppend(a: seq<Window>, b: seq<Window>)
    ensures ClientNames(a + b) == ClientNames(a) + ClientNames(b)
    decreases |b|
  {
    if b == [] {
      assert a + b == a;
    } else {
      var n := |b| - 1;
      assert (a + b)[..|a + b| - 1] == a + b[..n];
      ClientNamesAppend(a, b[..n]);
    }
  }

  /** A name is listed exactly when some window in the enumeration contributes it. */
  lemma {:induction false} ClientNamesMembers(ws: seq<Window>, name: string)
    ensures name in ClientNames(ws) <==> exists k :: 0 <= k < |ws| && ClientName(ws[k]) == Some(name)
    decreases |ws|
  {
    if ws != [] {
      var n := |ws| - 1;
      ClientNamesMembers(ws[..n], name);
      assert ClientNames(ws) == ClientNames(ws[..n]) + Contribution(ws[n]);
      assert name in Contribution(ws[n]) <==> ClientName(ws[n]) == Some(name);
      if exists k :: 0 <= k < |ws| && ClientName(ws[k]) == Some(name) {
        var k :| 0 <= k < |ws| && ClientName(ws[k]) == Some(name);
        if k < n {
          assert ws[..n][k] == ws[k];
        }
      }
      if exists k :: 0 <= k < n && ClientName(ws[..n][k]) == Some(name) {
        var k :| 0 <= k < n && ClientName(ws[..n][k]) == Some(name);
        assert ws[k] == ws[..n][k];
      }
    }
  }

  /** The usual title `EVE - <name>`, where the name does not itself contain
      the prefix, yields the name. */
  lemma ClientNameOfTitle(name: string)
    requires !Contains(name, EvePrefix)
    ensures ClientName(Window(true, |EvePrefix + name|, |EvePrefix + name|, EvePrefix + name)) == Some(name)
  {
    var title := EvePrefix + name;
    assert title[..|EvePrefix|] == EvePrefix;
    assert title[|EvePrefix|..] == name;
    ReplaceAllAbsent(name, EvePrefix, "");
    assert ReplaceAll(title, EvePrefix, "") == "" + ReplaceAll(name, EvePrefix, "");
    assert "" + name == name;
  }

  /** The leading prefix goes, and the rest of the title is treated the same
      way: later occurrences are removed too, not just the first. */
  lemma ClientNameRemovesEveryOccurrence(rest: string)
    ensures ClientName(Window(true, |EvePrefix + rest|, |EvePrefix + rest|, EvePrefix + rest))
            == Some(ReplaceAll(rest, EvePrefix, ""))
  {
    assert (EvePrefix + rest)[..|EvePrefix|] == EvePrefix && (EvePrefix + rest)[|EvePrefix|..] == rest;
    assert "" + ReplaceAll(rest, EvePrefix, "") == ReplaceAll(rest, EvePrefix, "");
  }

  /** A second `EVE - ` later in the title is removed as well: for a title
      `EVE - <name>EVE - <rest>` where no prefix starts inside `<name>`, the
      client is `<name>` followed by `<rest>` with its prefixes removed. */
  lemma ClientNameDropsLaterPrefix(name: string, rest: string)
    requires forall i :: 0 <= i < |name| ==> !StartsWith((name + EvePrefix + rest)[i..], EvePrefix)
    ensures var title := EvePrefix + name + EvePrefix + rest;
            ClientName(Window(true, |title|, |title|, title)) == Some(name + ReplaceAll(rest, EvePrefix, ""))
  {
    var title := EvePrefix + name + EvePrefix + rest;
    assert title == EvePrefix + (name + EvePrefix + rest);
    ClientNameRemovesEveryOccurrence(name + EvePrefix + rest);
    ReplaceRemovesOccurrence(name, EvePrefix, rest);
  }

  // ---------------------------------------------------------------------------
  // `refresh_eve_clients(character_var, combobox)`
  // ---------------------------------------------------------------------------

  datatype ComboState = ReadOnly | Disabled

  /** The selection after a refresh with a non-empty list: kept when it is still
      listed, otherwise the first client. */
  function Reselect(current: string, clients: seq<string>): (r: string)
    requires clients != []
    ensures r in clients
    ensures r == current <==> current in clients
  {
    if current in clients then current else clients[0]
  }

  /** The client dropdown: its state, its list, and the selected text
      (`character_var`, which the dropdown displays). */
  class Dropdown {
    var state: ComboState
    var values: seq<string>
    var selection: string

    /** The selection is one of the listed values, and a disabled dropdown
        lists and shows only the placeholder. */
    ghost predicate Valid()
      reads this
    {
      values != [] && selection in values
      && (state == Disabled ==> values == [Placeholder] && selection == Placeholder)
    }

    /** The dropdown `build_gui` creates from the first enumeration. */
    constructor (clients: seq<string>)
      ensures Valid()
      ensures clients != [] ==> state == ReadOnly && values == clients && selection == clients[0]
      ensures clients == [] ==> state == Disabled && values == [Placeholder] && selection == Placeholder
    {
      if clients != [] {
        selection := clients[0];
        values := clients;
        state := ReadOnly;
      } else {
        selection := Placeholder;
        values := [Placeholder];
        state := Disabled;
      }
    }

    /** `refresh_eve_clients`: `clients` is what `get_eve_windows` returned, or
        `None` when it raised (treated as no clients). */
    method Refresh(clients: Option<seq<string>>)
      requires Valid()
      modifies this
      ensures Valid()
      ensures clients.Some? && clients.value != [] ==>
                state == ReadOnly && values == clients.value && selection == Reselect(old(selection), clients.value)
      ensures clients.None? || clients.value == [] ==>
                state == Disabled && values == [Placeholder] && selection == Placeholder
    {
      var found := if clients.Some? then clients.value else [];
      if found != [] {
        state := ReadOnly;
        values := found;
        if selection !in found {
          selection := found[0];
        }
      } else {
        state := Disabled;
        values := [Placeholder];
        selection := Placeholder;
      }
    }
  }
}

/** A worked example of the title clean-up in `get_eve_windows`. */
module EveExamples {
  import opened Text
  import opened Eve

  /** `"EVE - Bob EVE - x".replace("EVE - ", "")` is `"Bob x"`: the second
      prefix goes too, not only the leading one. */
  lemma SecondPrefixRemoved()
    ensures ClientName(Window(true, 17, 17, "EVE - Bob EVE - x")) == Some("Bob x")
  {
    var name, rest := "Bob ", "x";
    assert EvePrefix + name + EvePrefix + rest == "EVE - Bob EVE - x";
    forall i | 0 <= i < |name| ensures !StartsWith((name + EvePrefix + rest)[i..], EvePrefix) {
      assert (name + EvePrefix + rest)[i] != 'E';
    }
    ClientNameDropsLaterPrefix(name, rest);
    assert !StartsWith(rest, EvePrefix);
    assert rest[1..] == [] && ReplaceAll(rest, EvePrefix, "") == [rest[0]] + ReplaceAll(rest[1..], EvePrefix, "");
    assert name + ReplaceAll(rest, EvePrefix, "") == "Bob x";
  }
}
