/** livetree.c: the list of references that the compiler leaves to the loader, __fixups__, and that the
    loader then resolves exactly these. */
module LabelFixups {
  import opened Bytes
  import opened DeviceTree
  import opened Fixups
  import opened Overlay
  import opened SymbolicFixups

  // ---- append_to_property ----

  /** append_to_property on a list of properties. */
  function AppendTo(fs: seq<Property>, name: seq<byte>, text: seq<byte>): seq<Property> {
    if fs == [] then [Property(name, text)]
    else if fs[0].name == name then [Property(name, fs[0].val + text)] + fs[1..]
    else [fs[0]] + AppendTo(fs[1..], name, text)
  }

  /** add_fixup_entry for one reference after the other. */
  function Collect(fs: seq<Property>, ls: seq<Labelled>): seq<Property>
    decreases |ls|
  {
    if ls == [] then fs else Collect(AppendTo(fs, ls[0].symbol, EntryText(ls[0].entry) + [0]), ls[1..])
  }

  /** The entries with that label, in order. */
  function With(ls: seq<Labelled>, name: seq<byte>): seq<Entry> {
    if ls == [] then [] else (if ls[0].symbol == name then [ls[0].entry] else []) + With(ls[1..], name)
  }

  lemma {:induction false} WithAppend(ls: seq<Labelled>, l: Labelled, name: seq<byte>)
    ensures With(ls + [l], name) == With(ls, name) + if l.symbol == name then [l.entry] else []
    decreases |ls|
  {
    if ls == [] {
      assert (ls + [l])[1..] == [];
    } else {
      assert (ls + [l])[1..] == ls[1..] + [l];
      WithAppend(ls[1..], l, name);
    }
  }

  lemma {:induction false} EmitAppend(es: seq<Entry>, e: Entry)
    ensures Emit(es + [e]) == Emit(es) + (EntryText(e) + [0])
    decreases |es|
  {
    if es == [] {
      assert (es + [e])[1..] == [];
    } else {
      assert (es + [e])[1..] == es[1..] + [e];
      EmitAppend(es[1..], e);
    }
  }

  /** Every property holds the entries of its label, and every label has a property. */
  predicate Grouped(fs: seq<Property>, ls: seq<Labelled>) {
    UniqueNames(fs) &&
    (forall i | 0 <= i < |fs| :: With(ls, fs[i].name) != [] && fs[i].val == Emit(With(ls, fs[i].name))) &&
    forall k | 0 <= k < |ls| :: HasProp(fs, ls[k].symbol)
  }

  /** The property of that name, if there is one, holds the text more, and else it is new. */
  predicate Appended(fs: seq<Property>, gs: seq<Property>, name: seq<byte>, text: seq<byte>) {
    |fs| <= |gs| <= |fs| + 1 &&
    (forall i | 0 <= i < |fs| :: gs[i] == if fs[i].name == name then Property(name, fs[i].val + text) else fs[i]) &&
    if |gs| > |fs| then !HasProp(fs, name) && gs[|fs|] == Property(name, text) else HasProp(fs, name)
  }

  lemma {:induction false} AppendToIs(fs: seq<Property>, name: seq<byte>, text: seq<byte>)
    requires UniqueNames(fs)
    ensures Appended(fs, AppendTo(fs, name, text), name, text)
    decreases |fs|
  {
    if fs != [] {
      var gs := AppendTo(fs, name, text);
      HasPropFirst(fs, name);
      if fs[0].name == name {
        assert forall i | 1 <= i < |fs| :: gs[i] == fs[i];
      } else {
        assert forall i | 0 <= i < |fs| - 1 :: fs[1..][i] == fs[i + 1];
        AppendToIs(fs[1..], name, text);
        assert forall i | 1 <= i < |gs| :: gs[i] == AppendTo(fs[1..], name, text)[i - 1];
      }
    }
  }

  lemma {:induction false} AppendedNames(fs: seq<Property>, gs: seq<Property>, name: seq<byte>, text: seq<byte>)
    requires UniqueNames(fs) && Appended(fs, gs, name, text)
    ensures UniqueNames(gs) && HasProp(gs, name) && forall i | 0 <= i < |fs| :: gs[i].name == fs[i].name
  {
    if |gs| == |fs| {
      var i :| 0 <= i < |fs| && fs[i].name == name;
      assert gs[i].name == name;
    } else {
      assert gs[|fs|].name == name;
    }
  }

  lemma {:induction false} GroupedAt(fs: seq<Property>, gs: seq<Property>, ls: seq<Labelled>, l: Labelled, i: nat)
    requires Grouped(fs, ls) && Appended(fs, gs, l.symbol, EntryText(l.entry) + [0]) && i < |gs|
    ensures With(ls + [l], gs[i].name) != [] && gs[i].val == Emit(With(ls + [l], gs[i].name))
  {
    WithAppend(ls, l, gs[i].name);
    if i < |fs| {
      EmitAppend(With(ls, fs[i].name), l.entry);
      assert With(ls, fs[i].name) + [] == With(ls, fs[i].name);
    } else {
      NoneWith(fs, ls, l.symbol);
      EmitAppend([], l.entry);
      assert Emit([]) + (EntryText(l.entry) + [0]) == EntryText(l.entry) + [0];
    }
  }

  lemma {:induction false} GroupedMore(fs: seq<Property>, ls: seq<Labelled>, l: Labelled)
    requires Grouped(fs, ls)
    ensures Grouped(AppendTo(fs, l.symbol, EntryText(l.entry) + [0]), ls + [l])
  {
    var text := EntryText(l.entry) + [0];
    var gs, more := AppendTo(fs, l.symbol, text), ls + [l];
    AppendToIs(fs, l.symbol, text);
    AppendedNames(fs, gs, l.symbol, text);
    forall i | 0 <= i < |gs| ensures With(more, gs[i].name) != [] && gs[i].val == Emit(With(more, gs[i].name)) {
      GroupedAt(fs, gs, ls, l, i);
    }
    forall k | 0 <= k < |more| ensures HasProp(gs, more[k].symbol) {
      if k < |ls| {
        assert more[k] == ls[k];
        var i :| 0 <= i < |fs| && fs[i].name == ls[k].symbol;
        assert gs[i].name == ls[k].symbol;
      }
    }
  }

  /** Without a property there is no entry of that label. */
  lemma {:induction false} NoneWith(fs: seq<Property>, ls: seq<Labelled>, name: seq<byte>)
    requires (forall k | 0 <= k < |ls| :: HasProp(fs, ls[k].symbol)) && !HasProp(fs, name)
    ensures With(ls, name) == []
    decreases |ls|
  {
    if ls != [] {
      assert forall k | 0 <= k < |ls| - 1 :: ls[1..][k] == ls[k + 1];
      assert HasProp(fs, ls[0].symbol);
      NoneWith(fs, ls[1..], name);
    }
  }

  lemma {:induction false} CollectGroups(fs: seq<Property>, done: seq<Labelled>, ls: seq<Labelled>)
    requires Grouped(fs, done)
    ensures Grouped(Collect(fs, ls), done + ls)
    decreases |ls|
  {
    if ls == [] {
      assert done + ls == done;
    } else {
      GroupedMore(fs, done, ls[0]);
      CollectGroups(AppendTo(fs, ls[0].symbol, EntryText(ls[0].entry) + [0]), done + [ls[0]], ls[1..]);
      assert done + [ls[0]] + ls[1..] == done + ls;
    }
  }

  // ---- the loader reads the same entries ----

  predicate AllClean(ls: seq<Labelled>) { forall i | 0 <= i < |ls| :: Clean(ls[i].entry) }

  lemma {:induction false} WithClean(ls: seq<Labelled>, name: seq<byte>)
    requires AllClean(ls)
    ensures forall i | 0 <= i < |With(ls, name)| :: Clean(With(ls, name)[i])
    decreases |ls|
  {
    if ls != [] {
      assert forall i | 0 <= i < |ls| - 1 :: ls[1..][i] == ls[i + 1];
      WithClean(ls[1..], name);
    }
  }

  /** How often an entry is there with that label. */
  lemma {:induction false} WithCount(ls: seq<Labelled>, l: Labelled)
    ensures multiset(With(ls, l.symbol))[l.entry] == multiset(ls)[l]
    decreases |ls|
  {
    if ls != [] {
      WithCount(ls[1..], l);
      var head := if ls[0].symbol == l.symbol then [ls[0].entry] else [];
      assert ls == [ls[0]] + ls[1..];
      assert multiset(ls) == multiset([ls[0]]) + multiset(ls[1..]);
      assert multiset(With(ls, l.symbol)) == multiset(head) + multiset(With(ls[1..], l.symbol));
    }
  }

  lemma {:induction false} LabelAllCount(symbol: seq<byte>, es: seq<Entry>, l: Labelled)
    ensures multiset(LabelAll(symbol, es))[l] == if l.symbol == symbol then multiset(es)[l.entry] else 0
    decreases |es|
  {
    if es != [] {
      LabelAllCount(symbol, es[1..], l);
      assert es == [es[0]] + es[1..];
      assert LabelAll(symbol, es) == [Labelled(symbol, es[0])] + LabelAll(symbol, es[1..]);
      assert multiset(es) == multiset([es[0]]) + multiset(es[1..]);
      assert multiset(LabelAll(symbol, es)) ==
             multiset([Labelled(symbol, es[0])]) + multiset(LabelAll(symbol, es[1..]));
    }
  }

  /** All values parse, and the entries read are those listed, each as often. */
  lemma {:induction false} GroupsRead(fs: seq<Property>, ls: seq<Labelled>, l: Labelled)
    requires UniqueNames(fs) && AllClean(ls)
    requires forall i | 0 <= i < |fs| :: With(ls, fs[i].name) != [] && fs[i].val == Emit(With(ls, fs[i].name))
    ensures Entries(fs).Some?
    ensures multiset(Entries(fs).value)[l] == if HasProp(fs, l.symbol) then multiset(ls)[l] else 0
    decreases |fs|
  {
    if fs != [] {
      var rest := fs[1..];
      assert forall i | 0 <= i < |fs| - 1 :: rest[i] == fs[i + 1];
      GroupsRead(rest, ls, l);
      WithClean(ls, fs[0].name);
      FixupsRoundTrip(With(ls, fs[0].name));
      var here := LabelAll(fs[0].name, With(ls, fs[0].name));
      assert Entries(fs).value == here + Entries(rest).value;
      assert multiset(Entries(fs).value) == multiset(here) + multiset(Entries(rest).value);
      LabelAllCount(fs[0].name, With(ls, fs[0].name), l);
      WithCount(ls, l);
      HasPropFirst(fs, l.symbol);
    }
  }

  lemma {:induction false} HasPropFirst(fs: seq<Property>, name: seq<byte>)
    requires fs != [] && UniqueNames(fs)
    ensures HasProp(fs, name) <==> fs[0].name == name || HasProp(fs[1..], name)
    ensures fs[0].name == name ==> !HasProp(fs[1..], name)
  {
    if i :| 0 < i < |fs| && fs[i].name == name {
      assert fs[1..][i - 1].name == name;
    }
    if i :| 0 <= i < |fs| - 1 && fs[1..][i].name == name {
      assert fs[i + 1].name == name;
    }
  }

  /** Compiler and loader agree on all references by label: the loader reads from the properties exactly
      the entries that the compiler has added, each as often. */
  lemma {:induction false} CollectedRead(ls: seq<Labelled>)
    requires AllClean(ls)
    ensures Entries(Collect([], ls)).Some? && multiset(Entries(Collect([], ls)).value) == multiset(ls)
    ensures UniqueNames(Collect([], ls))
  {
    var fs := Collect([], ls);
    CollectGroups([], [], ls);
    assert [] + ls == ls;
    forall l ensures Entries(fs).Some? && multiset(Entries(fs).value)[l] == multiset(ls)[l] {
      GroupsRead(fs, ls, l);
      if l in multiset(ls) {
        assert l in ls;
        var k :| 0 <= k < |ls| && ls[k] == l;
        assert HasProp(fs, ls[k].symbol);
      }
    }
  }
}
