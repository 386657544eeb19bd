/** What one processed record does to the inventory, and what the whole run
    promises, stated against the assembler's definitions. */
module InventoryProperties {
  import opened Wrappers
  import opened Text
  import opened Assoc
  import opened Values
  import opened Record
  import opened Inventory

  /** `b` has the keys of `a` apart from `_meta`, the same `hosts` lists,
      and the same entries apart from `_meta`. */
  ghost predicate AgreesOutsideMeta(a: Inventory, b: Inventory)
  {
    && (forall k :: k != Meta ==> (k in b <==> k in a))
    && (forall k :: k in a ==> k in b && b[k].hosts == a[k].hosts)
    && (forall k :: k in a && k != Meta ==> b[k] == a[k])
  }

  /** Outside `_meta`, a host record is its group membership alone; the
      `hosts` of `_meta` too come from group membership. */
  lemma HostStepIsMembership(inv: Inventory, store: FieldMap)
    requires "hostname" in store
    requires HostStep(inv, store).Ok?
    ensures var inv1 := AddToGroups(inv, HostGroups(store), store["hostname"]);
            inv1.Ok? && AgreesOutsideMeta(inv1.value, HostStep(inv, store).value)
  {
    var host := store["hostname"];
    HostStepSplits(inv, store);
    if "hostvars" in store {
      HostVarsLoopAgrees(AddToGroups(inv, HostGroups(store), host).value, host, Split(store["hostvars"], ','));
    }
  }

  /** The `hostvars` loop changes nothing outside `_meta`, nor the `hosts` of `_meta`. */
  lemma HostVarsLoopAgrees(inv: Inventory, host: string, items: seq<string>)
    requires |items| > 0 && AddHostVars(inv, host, items).Ok?
    ensures AgreesOutsideMeta(inv, AddHostVars(inv, host, items).value)
  {
    AddHostVarsFrame(inv, host, items);
  }

  /** A host record with `groups` leaves every listed group present with the
      host appended once per listing, and does not touch `ungrouped` unless
      it is listed. */
  lemma HostJoinsListedGroups(inv: Inventory, store: FieldMap)
    requires "hostname" in store && "groups" in store
    requires Step(inv, store).Ok?
    ensures var r := Step(inv, store).value;
            var groups := Split(store["groups"], ',');
            forall g :: g in groups ==>
              g in r && r[g].hosts == Some(HostsOf(inv, g) + Repeat(store["hostname"], Count(groups, g)))
    ensures var r := Step(inv, store).value;
            Ungrouped !in Split(store["groups"], ',') ==>
              (Ungrouped in r <==> Ungrouped in inv) && (Ungrouped in inv ==> r[Ungrouped] == inv[Ungrouped])
  {
    var host := store["hostname"];
    var groups := HostGroups(store);
    AddToGroupsHosts(inv, groups, host);
    assert Step(inv, store) == HostStep(inv, store);
    HostStepIsMembership(inv, store);
    var inv1 := AddToGroups(inv, groups, host).value;
    var r := Step(inv, store).value;
    assert Ungrouped != Meta by {
      assert Ungrouped[0] != Meta[0];
    }
    if Ungrouped !in groups {
      assert Ungrouped in r <==> Ungrouped in inv1;
      assert Ungrouped in inv1 <==> Ungrouped in inv;
      if Ungrouped in inv {
        assert r[Ungrouped] == inv1[Ungrouped];
      }
    }
  }

  /** A host record without `groups` is appended to `ungrouped`, which is
      created when absent. */
  lemma HostWithoutGroupsIsUngrouped(inv: Inventory, store: FieldMap)
    requires "hostname" in store && "groups" !in store
    requires Step(inv, store).Ok?
    ensures var r := Step(inv, store).value;
            Ungrouped in r && r[Ungrouped].hosts == Some(HostsOf(inv, Ungrouped) + [store["hostname"]])
  {
    var host := store["hostname"];
    var inv1 := AddToGroups(inv, [Ungrouped], host).value;
    AddToGroupsHosts(inv, [Ungrouped], host);
    assert Count([Ungrouped], Ungrouped) == 1;
    assert Repeat(host, 1) == [host];
    if "hostvars" in store {
      AddHostVarsWrites(inv1, host, Split(store["hostvars"], ','));
    }
  }

  /** A host record with `hostvars` is, after group membership, exactly one
      write of the host's variable map. */
  lemma HostStepWritesHostVars(inv: Inventory, store: FieldMap)
    requires CarriesHostVars(store)
    requires Step(inv, store).Ok?
    ensures var host := store["hostname"];
            var items := Split(store["hostvars"], ',');
            var inv1 := AddToGroups(inv, HostGroups(store), host);
            && inv1.Ok?
            && HostVarsOf(inv1.value, host) == HostVarsOf(inv, host)
            && (HasHostVars(inv1.value) <==> HasHostVars(inv))
            && (HasHostVars(inv) ==> inv1.value[Meta].hostvars == inv[Meta].hostvars)
            && MetaUsable(inv1.value)
            && AllPairsWellFormed(items)
            && Step(inv, store).value
               == SetHostVars(inv1.value, host, Update(HostVarsOf(inv, host), ParseVarPairs(items).value))
  {
    var host := store["hostname"];
    var items := Split(store["hostvars"], ',');
    HostStepUnfold(inv, store);
    var inv1 := AddToGroups(inv, HostGroups(store), host).value;
    MembershipKeepsHostVars(inv, HostGroups(store), host);
    AddHostVarsWrites(inv1, host, items);
  }

  /** A host record with `hostvars` is group membership followed by the
      `hostvars` loop. */
  lemma HostStepUnfold(inv: Inventory, store: FieldMap)
    requires CarriesHostVars(store)
    requires Step(inv, store).Ok?
    ensures var r1 := AddToGroups(inv, HostGroups(store), store["hostname"]);
            && r1.Ok?
            && Step(inv, store) == AddHostVars(r1.value, store["hostname"], Split(store["hostvars"], ','))
  {
    assert Step(inv, store) == HostStep(inv, store);
    HostStepSplits(inv, store);
  }

  /** A host record is group membership, then the `hostvars` loop if the
      record has `hostvars`. */
  lemma HostStepSplits(inv: Inventory, store: FieldMap)
    requires "hostname" in store
    requires HostStep(inv, store).Ok?
    ensures var r1 := AddToGroups(inv, HostGroups(store), store["hostname"]);
            && r1.Ok?
            && HostStep(inv, store)
               == if "hostvars" in store
                  then AddHostVars(r1.value, store["hostname"], Split(store["hostvars"], ','))
                  else r1
  {
  }

  /** Group membership leaves `_meta.hostvars` as it was. */
  lemma MembershipKeepsHostVars(inv: Inventory, groups: seq<string>, host: string)
    requires AddToGroups(inv, groups, host).Ok?
    ensures var inv1 := AddToGroups(inv, groups, host).value;
            && (HasHostVars(inv1) <==> HasHostVars(inv))
            && (HasHostVars(inv) ==> inv1[Meta].hostvars == inv[Meta].hostvars)
            && forall h :: HostVarsOf(inv1, h) == HostVarsOf(inv, h)
  {
    var inv1 := AddToGroups(inv, groups, host).value;
    assert Meta in inv1 ==> inv1[Meta].hostvars == EntryOr(inv, Meta, NewGroup).hostvars;
  }

  /** A host record with `hostvars` leaves `_meta.hostvars` present, and the
      host's map holds the old variables overwritten by the record's pairs,
      the last pair for a name winning. */
  lemma HostVarsLastWins(inv: Inventory, store: FieldMap)
    requires CarriesHostVars(store)
    requires Step(inv, store).Ok?
    ensures var r := Step(inv, store).value;
            var host := store["hostname"];
            var items := Split(store["hostvars"], ',');
            && HasHostVars(r)
            && host in r[Meta].hostvars.value
            && AllPairsWellFormed(items)
            && LastWins(HostVarsOf(inv, host), ParseVarPairs(items).value, HostVarsOf(r, host))
  {
    HostStepWritesHostVars(inv, store);
    UpdateLastWins(HostVarsOf(inv, store["hostname"]), ParseVarPairs(Split(store["hostvars"], ',')).value);
  }

  /** A host record with `hostvars` leaves every other host's variables as
      they were. */
  lemma HostVarsOtherHostsUnchanged(inv: Inventory, store: FieldMap, other: string)
    requires CarriesHostVars(store) && other != store["hostname"]
    requires Step(inv, store).Ok?
    ensures var r := Step(inv, store).value;
            && HasHostVars(r)
            && (other in r[Meta].hostvars.value <==> HasHostVars(inv) && other in inv[Meta].hostvars.value)
            && HostVarsOf(r, other) == HostVarsOf(inv, other)
  {
    HostStepWritesHostVars(inv, store);
  }

  /** A `var:value` item without exactly one `:` fails the whole record. */
  lemma MalformedHostVarFails(inv: Inventory, store: FieldMap)
    requires "hostname" in store && "hostvars" in store
    requires !AllPairsWellFormed(Split(store["hostvars"], ','))
    ensures Step(inv, store).Err?
  {
    var host := store["hostname"];
    var r1 := AddToGroups(inv, HostGroups(store), host);
    if r1.Ok? {
      assert !AddHostVars(r1.value, host, Split(store["hostvars"], ',')).Ok?;
    }
  }

  /** A store with `hostname` is processed only as a host record: its
      `group`, `vars` and `children` fields, if any, change nothing. */
  lemma HostRecordIgnoresGroupFields(inv: Inventory, store: FieldMap)
    requires "hostname" in store
    ensures Step(inv, store) == Step(inv, store - {"group", "vars", "children"})
  {
    var plain := store - {"group", "vars", "children"};
    assert "hostname" in plain && plain["hostname"] == store["hostname"];
    assert ("groups" in plain <==> "groups" in store) && ("groups" in store ==> plain["groups"] == store["groups"]);
    assert ("hostvars" in plain <==> "hostvars" in store) && ("hostvars" in store ==> plain["hostvars"] == store["hostvars"]);
    assert HostGroups(plain) == HostGroups(store);
  }

  /** When `_meta` already names a group (it has no `hostvars`), a host record
      with `hostvars` fails: with the KeyError on `hostvars` once its groups
      were joined, and otherwise with the KeyError on `hosts` of a listed
      group. */
  lemma MetaGroupBlocksHostVars(inv: Inventory, store: FieldMap)
    requires CarriesHostVars(store)
    requires Meta in inv && inv[Meta].hostvars.None?
    ensures Step(inv, store).Err?
    ensures AddToGroups(inv, HostGroups(store), store["hostname"]).Ok? ==>
              Step(inv, store) == Err(MissingField("hostvars"))
    ensures AddToGroups(inv, HostGroups(store), store["hostname"]).Err? ==>
              Step(inv, store) == Err(MissingField("hosts"))
  {
    var host := store["hostname"];
    var r1 := AddToGroups(inv, HostGroups(store), host);
    if r1.Ok? {
      assert r1.value[Meta].hostvars.None?;
      assert !AddHostVars(r1.value, host, Split(store["hostvars"], ',')).Ok?;
    }
  }

  /** A group record is: create the group if absent, the `vars` part, then
      the `children` part. */
  lemma GroupStepParts(inv: Inventory, store: FieldMap)
    requires Classify(store) == GroupRecord
    requires Step(inv, store).Ok?
    ensures var g := store["group"];
            var inv1 := if g in inv then inv else inv[g := NewGroup];
            var r2 := GroupVarsPart(inv1, g, store);
            && r2.Ok?
            && GroupChildrenPart(r2.value, g, store).Ok?
            && Step(inv, store).value == GroupChildrenPart(r2.value, g, store).value
  {
  }

  /** A group record without `vars` keeps the group's variables, and one
      without `children` keeps its children; a group it creates has
      neither. */
  lemma GroupKeepsAbsentFields(inv: Inventory, store: FieldMap)
    requires Classify(store) == GroupRecord
    requires Step(inv, store).Ok?
    ensures var r := Step(inv, store).value;
            var g := store["group"];
            && g in r
            && ("vars" !in store ==> r[g].vars == EntryOr(inv, g, NewGroup).vars)
            && ("children" !in store ==> r[g].children == EntryOr(inv, g, NewGroup).children)
  {
    GroupStepParts(inv, store);
  }

  /** When the group NAME lacks `vars`, a group record's `vars` replaces the
      group's variables by exactly the record's pairs, last pair winning;
      the group's hosts are untouched. */
  lemma GroupVarsReplaced(inv: Inventory, store: FieldMap)
    requires Classify(store) == GroupRecord && "vars" in store && !Contains(store["group"], "vars")
    requires Step(inv, store).Ok?
    ensures var r := Step(inv, store).value;
            var g := store["group"];
            var items := Split(store["vars"], ',');
            && g in r
            && AllPairsWellFormed(items)
            && r[g].vars.Some?
            && LastWins(map[], ParseVarPairs(items).value, r[g].vars.value)
            && r[g].hosts == EntryOr(inv, g, NewGroup).hosts
  {
    GroupStepParts(inv, store);
    var g := store["group"];
    var items := Split(store["vars"], ',');
    var inv1 := if g in inv then inv else inv[g := NewGroup];
    ApplyGroupVarsWrites(ResetVars(inv1, g), g, items);
    UpdateLastWins(map[], ParseVarPairs(items).value);
  }

  /** For any dictionary: when the group NAME contains `vars`, the reset is
      skipped, so the record succeeds only if the group already has `vars`,
      and its pairs are then written over them. No run from the empty
      dictionary gets that far (`GuardedGroupRecordFailsRun`). */
  lemma GroupVarsWithoutReset(inv: Inventory, store: FieldMap)
    requires Classify(store) == GroupRecord && "vars" in store && Contains(store["group"], "vars")
    requires Step(inv, store).Ok?
    ensures var r := Step(inv, store).value;
            var g := store["group"];
            var items := Split(store["vars"], ',');
            && g in inv && inv[g].vars.Some?
            && AllPairsWellFormed(items)
            && r[g].vars.Some?
            && LastWins(inv[g].vars.value, ParseVarPairs(items).value, r[g].vars.value)
  {
    GroupStepParts(inv, store);
    var g := store["group"];
    var items := Split(store["vars"], ',');
    var inv1 := if g in inv then inv else inv[g := NewGroup];
    ApplyGroupVarsWrites(ResetVars(inv1, g), g, items);
    UpdateLastWins(inv[g].vars.value, ParseVarPairs(items).value);
  }

  /** When the group NAME lacks `children`, a group record's `children`
      replaces the group's children by the record's comma-split list, in
      order and with duplicates. */
  lemma GroupChildrenReplaced(inv: Inventory, store: FieldMap)
    requires Classify(store) == GroupRecord && "children" in store && !Contains(store["group"], "children")
    requires Step(inv, store).Ok?
    ensures var r := Step(inv, store).value;
            var g := store["group"];
            g in r && r[g].children == Some(Split(store["children"], ','))
  {
    GroupStepParts(inv, store);
    var g := store["group"];
    var items := Split(store["children"], ',');
    var inv1 := if g in inv then inv else inv[g := NewGroup];
    var inv2 := GroupVarsPart(inv1, g, store).value;
    assert ResetChildren(inv2, g)[g].children == Some([]);
    assert [] + items == items;
  }

  /** For any dictionary: when the group NAME contains `children`, the reset
      is skipped, so the record succeeds only if the group already has
      `children`, and the record's list is then appended to them. No run
      from the empty dictionary gets that far (`GuardedGroupRecordFailsRun`). */
  lemma GroupChildrenWithoutReset(inv: Inventory, store: FieldMap)
    requires Classify(store) == GroupRecord && "children" in store && Contains(store["group"], "children")
    requires Step(inv, store).Ok?
    ensures var r := Step(inv, store).value;
            var g := store["group"];
            && g in inv && inv[g].children.Some?
            && r[g].children == Some(inv[g].children.value + Split(store["children"], ','))
  {
    GroupStepParts(inv, store);
  }

  // ---------------------------------------------------------------------
  // The whole run
  // ---------------------------------------------------------------------

  /** Running two batches of records one after the other is running their
      concatenation: the run is a left fold. */
  lemma {:induction false} RunAppend(a: seq<string>, b: seq<string>, inv: Inventory)
    ensures Run(a + b, inv) == (if Run(a, inv).Ok? then Run(b, Run(a, inv).value) else Run(a, inv))
    decreases |a|
  {
    if |a| == 0 {
      assert a + b == b;
    } else {
      assert (a + b)[0] == a[0] && (a + b)[1..] == a[1..] + b;
      var store := Decode(a[0]);
      if store.Ok? && Step(inv, store.value).Ok? {
        RunAppend(a[1..], b, Step(inv, store.value).value);
      }
    }
  }

  /** A run of one record decodes it and processes its store; with
      `RunAppend` this reduces every run to its records one by one. */
  lemma RunSingle(raw: string, inv: Inventory)
    ensures Run([raw], inv) == (if Decode(raw).Err? then Err(Decode(raw).error) else Step(inv, Decode(raw).value))
  {
    assert [raw][0] == raw && [raw][1..] == [];
  }

  /** The first record of a run, if it is a well-formed host record without
      `hostvars`, always produces an inventory: from the empty dictionary no
      listed group can lack `hosts`. */
  lemma HostRecordStartsInventory(raw: string)
    requires Decode(raw).Ok? && "hostname" in Decode(raw).value && "hostvars" !in Decode(raw).value
    ensures DnsInventory([raw]).Ok?
  {
    RunSingle(raw, map[]);
  }

  /** A record with a segment lacking exactly one `=` fails the whole run,
      wherever it sits. */
  lemma MalformedRecordFailsRun(records: seq<string>, inv: Inventory, i: int)
    requires 0 <= i < |records| && Decode(records[i]).Err?
    ensures Run(records, inv).Err?
  {
    AllDecodeAt(records);
  }

  /** `_meta` carries `hostvars` after a successful run exactly when some
      record is a host record with `hostvars`. */
  lemma MetaIffHostVarsRecord(records: seq<string>)
    requires DnsInventory(records).Ok?
    ensures HasHostVars(DnsInventory(records).value)
            <==> exists i :: 0 <= i < |records| && RecordCarriesHostVars(records[i])
  {
    SomeCarriesAt(records);
  }

  // ---------------------------------------------------------------------
  // Group names that mention a field
  // ---------------------------------------------------------------------

  /** No entry whose NAME contains `vars` has a `vars` field, and none whose
      name contains `children` has a `children` field. Only the resets at
      lines 119-120 and 130-131 create these fields, and they skip exactly
      such names. */
  ghost predicate GuardedFieldsAbsent(inv: Inventory)
  {
    && (forall k :: k in inv && Contains(k, "vars") ==> inv[k].vars.None?)
    && (forall k :: k in inv && Contains(k, "children") ==> inv[k].children.None?)
  }

  /** A host record gives no entry `vars` or `children`: every entry keeps
      the ones it had, and a new entry has neither. */
  lemma HostStepGroupData(inv: Inventory, store: FieldMap)
    requires "hostname" in store
    requires HostStep(inv, store).Ok?
    ensures var r := HostStep(inv, store).value;
            forall k :: k in r ==>
              && r[k].vars == EntryOr(inv, k, NewGroup).vars
              && r[k].children == EntryOr(inv, k, NewGroup).children
  {
    var host := store["hostname"];
    HostStepSplits(inv, store);
    var inv1 := AddToGroups(inv, HostGroups(store), host).value;
    var r := HostStep(inv, store).value;
    if "hostvars" in store {
      HostVarsLoopGroupData(inv1, host, Split(store["hostvars"], ','));
    }
    forall k | k in r
      ensures r[k].vars == EntryOr(inv, k, NewGroup).vars && r[k].children == EntryOr(inv, k, NewGroup).children
    {
      if k in inv1 {
        assert inv1[k] == EntryOr(inv, k, NewGroup).(hosts := inv1[k].hosts);
      } else {
        assert k !in inv;
      }
    }
  }

  /** The `hostvars` loop keeps every entry's `vars` and `children`, and
      `_meta`, if it creates it, has neither. */
  lemma HostVarsLoopGroupData(inv: Inventory, host: string, items: seq<string>)
    requires |items| > 0 && AddHostVars(inv, host, items).Ok?
    ensures var r := AddHostVars(inv, host, items).value;
            && r.Keys == inv.Keys + {Meta}
            && forall k :: k in r ==>
                 && r[k].vars == EntryOr(inv, k, NewGroup).vars
                 && r[k].children == EntryOr(inv, k, NewGroup).children
  {
    AddHostVarsFrame(inv, host, items);
    var r := AddHostVars(inv, host, items).value;
    forall k | k in r
      ensures r[k].vars == EntryOr(inv, k, NewGroup).vars && r[k].children == EntryOr(inv, k, NewGroup).children
    {
      if k == Meta {
        assert r[Meta] == EntryOr(inv, Meta, NewMeta).(hostvars := r[Meta].hostvars);
      }
    }
  }

  /** A group whose name contains `vars` and which has no `vars` fails on a
      record carrying `vars`: the reset is skipped and the first item hits
      the missing field. */
  lemma VarsPartGuarded(inv: Inventory, g: string, store: FieldMap)
    requires g in inv && Contains(g, "vars") && inv[g].vars.None?
    ensures "vars" in store ==> GroupVarsPart(inv, g, store).Err?
  {
    if "vars" in store {
      assert ResetVars(inv, g) == inv;
    }
  }

  /** The `children` analogue of `VarsPartGuarded`. */
  lemma ChildrenPartGuarded(inv: Inventory, g: string, store: FieldMap)
    requires g in inv && Contains(g, "children") && inv[g].children.None?
    ensures "children" in store ==> GroupChildrenPart(inv, g, store).Err?
  {
    if "children" in store {
      assert ResetChildren(inv, g) == inv;
    }
  }

  /** A successful group record whose name mentions a field does not carry
      that field, and it keeps `GuardedFieldsAbsent`. */
  lemma GroupStepGuarded(inv: Inventory, store: FieldMap)
    requires GuardedFieldsAbsent(inv)
    requires Classify(store) == GroupRecord
    requires Step(inv, store).Ok?
    ensures var g := store["group"];
            && !("vars" in store && Contains(g, "vars"))
            && !("children" in store && Contains(g, "children"))
            && GuardedFieldsAbsent(Step(inv, store).value)
  {
    GroupStepParts(inv, store);
    var g := store["group"];
    var inv1 := if g in inv then inv else inv[g := NewGroup];
    var inv2 := GroupVarsPart(inv1, g, store).value;
    var r := Step(inv, store).value;
    assert Contains(g, "vars") ==> inv1[g].vars.None?;
    assert Contains(g, "children") ==> inv1[g].children.None?;
    if Contains(g, "vars") {
      VarsPartGuarded(inv1, g, store);
    }
    assert inv2[g].children == inv1[g].children;
    if Contains(g, "children") {
      ChildrenPartGuarded(inv2, g, store);
    }
    assert Step(inv, store) == GroupStep(inv, store);
    assert Contains(g, "vars") ==> r[g].vars.None?;
    assert Contains(g, "children") ==> r[g].children.None?;
    GuardedAfterUpdate(inv, r, g);
  }

  /** Changing or adding the single entry `g` keeps `GuardedFieldsAbsent`
      when the new entry respects it. */
  lemma GuardedAfterUpdate(inv: Inventory, r: Inventory, g: string)
    requires GuardedFieldsAbsent(inv)
    requires g in r && forall k :: k in r && k != g ==> k in inv && r[k] == inv[k]
    requires Contains(g, "vars") ==> r[g].vars.None?
    requires Contains(g, "children") ==> r[g].children.None?
    ensures GuardedFieldsAbsent(r)
  {
    forall k | k in r && Contains(k, "vars") ensures r[k].vars.None? {
      if k != g {
        assert r[k] == inv[k];
      }
    }
  }

  /** Every successful record keeps `GuardedFieldsAbsent`. */
  lemma StepKeepsGuardedFieldsAbsent(inv: Inventory, store: FieldMap)
    requires GuardedFieldsAbsent(inv)
    requires Step(inv, store).Ok?
    ensures GuardedFieldsAbsent(Step(inv, store).value)
  {
    match Classify(store)
    case HostRecord =>
      assert Step(inv, store) == HostStep(inv, store);
      HostStepGroupData(inv, store);
    case GroupRecord =>
      GroupStepGuarded(inv, store);
    case Ignored =>
  }

  /** A successful run keeps `GuardedFieldsAbsent`. */
  lemma {:induction false} RunKeepsGuardedFieldsAbsent(records: seq<string>, inv: Inventory)
    requires GuardedFieldsAbsent(inv)
    requires Run(records, inv).Ok?
    ensures GuardedFieldsAbsent(Run(records, inv).value)
    decreases |records|
  {
    if |records| > 0 {
      var store := Decode(records[0]).value;
      StepKeepsGuardedFieldsAbsent(inv, store);
      RunKeepsGuardedFieldsAbsent(records[1..], Step(inv, store).value);
    }
  }

  /** In a run from the empty dictionary, a group record whose name contains
      `vars` and which has `vars` always fails, because the group never has
      `vars`; the same holds for `children`. */
  lemma GuardedGroupRecordFailsRun(records: seq<string>, i: int)
    requires 0 <= i < |records| && Decode(records[i]).Ok?
    requires var store := Decode(records[i]).value;
             && Classify(store) == GroupRecord
             && (("vars" in store && Contains(store["group"], "vars"))
                 || ("children" in store && Contains(store["group"], "children")))
    ensures DnsInventory(records).Err?
  {
    var before, rest := records[..i], records[i..];
    TakeDropAppend(records, i);
    RunAppend(before, rest, map[]);
    if Run(before, map[]).Ok? {
      RunKeepsGuardedFieldsAbsent(before, map[]);
      assert rest[0] == records[i];
      GuardedRecordFailsFirst(rest, Run(before, map[]).value);
    }
  }

  /** From a dictionary respecting `GuardedFieldsAbsent`, a run whose first
      record is such a group record fails. */
  lemma GuardedRecordFailsFirst(records: seq<string>, inv: Inventory)
    requires GuardedFieldsAbsent(inv)
    requires |records| > 0 && Decode(records[0]).Ok?
    requires var store := Decode(records[0]).value;
             && Classify(store) == GroupRecord
             && (("vars" in store && Contains(store["group"], "vars"))
                 || ("children" in store && Contains(store["group"], "children")))
    ensures Run(records, inv).Err?
  {
    var store := Decode(records[0]).value;
    if Step(inv, store).Ok? {
      GroupStepGuarded(inv, store);
    }
  }
}
