/** The inventory assembler: a fold over the decoded stores that builds the
    Ansible inventory dictionary, group entries and `_meta` alike. */
module Inventory {
  import opened Wrappers
  import opened Text
  import opened Assoc
  import opened Values
  import opened Record

  /** One value of the inventory dictionary. The Python builds these as dicts
      with some of the keys `hosts`, `vars`, `children` and `hostvars`; an
      absent key is `None`. Groups start as `{"hosts": []}`, `_meta` starts as
      `{"hostvars": {}}`, and both live in the same dictionary. */
  datatype Entry = Entry(
    hosts: Option<seq<string>>,
    vars: Option<map<string, VarValue>>,
    children: Option<seq<string>>,
    hostvars: Option<map<string, map<string, VarValue>>>)

  /** The inventory dictionary: group name (or `_meta`) to entry. */
  type Inventory = map<string, Entry>

  const Meta: string := "_meta"
  const Ungrouped: string := "ungrouped"
  const NewGroup: Entry := Entry(Some([]), None, None, None)
  const NewMeta: Entry := Entry(None, None, None, Some(map[]))

  /** The answer to `--host` and to a call without flags. */
  const EmptyInventory: Inventory := map[Meta := NewMeta]

  /** The empty inventory holds only `_meta`, whose `hostvars` table is
      present and empty: no group, no host and no variables. */
  lemma EmptyInventoryHoldsOnlyHostVars()
    ensures EmptyInventory.Keys == {Meta}
    ensures HasHostVars(EmptyInventory) && EmptyInventory[Meta].hostvars.value == map[]
    ensures forall h :: HostVarsOf(EmptyInventory, h) == map[]
    ensures forall g :: HostsOf(EmptyInventory, g) == []
    ensures EmptyInventory[Meta].vars.None? && EmptyInventory[Meta].children.None?
  {
  }

  /** The entry stored under `name`, or the one the code would create for it. */
  function EntryOr(inv: Inventory, name: string, initial: Entry): Entry
  {
    if name in inv then inv[name] else initial
  }

  /** The `hosts` list of `g`, empty when there is none. */
  function HostsOf(inv: Inventory, g: string): seq<string>
  {
    if g in inv && inv[g].hosts.Some? then inv[g].hosts.value else []
  }

  /** `b` keeps every key of `a`, and every `hosts` list of `a` is a prefix of
      the one in `b`. */
  ghost predicate Grows(a: Inventory, b: Inventory)
  {
    && a.Keys <= b.Keys
    && forall k :: k in a ==> HostsOf(a, k) <= HostsOf(b, k)
  }

  /** Every entry of `a` is in `b` with the same `vars` and `children`. */
  ghost predicate KeepsGroupData(a: Inventory, b: Inventory)
  {
    forall k :: k in a ==> k in b && b[k].vars == a[k].vars && b[k].children == a[k].children
  }

  lemma GrowsTransitive(a: Inventory, b: Inventory, c: Inventory)
    requires Grows(a, b) && Grows(b, c)
    ensures Grows(a, c)
  {
    forall k | k in a ensures HostsOf(a, k) <= HostsOf(c, k) {
      assert HostsOf(a, k) <= HostsOf(b, k);
    }
  }

  // ---------------------------------------------------------------------
  // Host records
  // ---------------------------------------------------------------------

  /** Appends `host` to the `hosts` list of each group in `groups`, in order,
      creating a missing group as `{"hosts": []}` first. An existing entry
      without `hosts` (only `_meta` can be one) is a KeyError. */
  function AddToGroups(inv: Inventory, groups: seq<string>, host: string): (r: Result<Inventory>)
    ensures r.Ok? <==> forall i :: 0 <= i < |groups| ==> groups[i] !in inv || inv[groups[i]].hosts.Some?
    ensures r.Err? ==> r.error == MissingField("hosts")
    ensures r.Ok? ==> r.value.Keys == inv.Keys + set g | g in groups
    ensures r.Ok? ==> forall g :: g in r.value ==>
                        r.value[g] == EntryOr(inv, g, NewGroup).(hosts := r.value[g].hosts)
    decreases |groups|
  {
    if |groups| == 0 then Ok(inv)
    else
      var g := groups[0];
      var entry := EntryOr(inv, g, NewGroup);
      if entry.hosts.None? then Err(MissingField("hosts"))
      else
        var inv' := inv[g := entry.(hosts := Some(entry.hosts.value + [host]))];
        assert groups == [g] + groups[1..];
        forall x ensures EntryOr(inv', x, NewGroup) == EntryOr(inv, x, NewGroup).(hosts := EntryOr(inv', x, NewGroup).hosts) {
        }
        AddToGroups(inv', groups[1..], host)
  }

  /** One step of the membership loop: the first group gains the host and the
      loop continues on the rest. */
  lemma AddToGroupsHead(inv: Inventory, groups: seq<string>, host: string)
    requires |groups| > 0 && AddToGroups(inv, groups, host).Ok?
    ensures var entry := EntryOr(inv, groups[0], NewGroup);
            && entry.hosts.Some?
            && AddToGroups(inv, groups, host)
               == AddToGroups(inv[groups[0] := entry.(hosts := Some(entry.hosts.value + [host]))], groups[1..], host)
  {
  }

  /** What adding a host to groups does to one name `x`: its `hosts` gain the
      host once per listing of `x`, and an unlisted entry is untouched. */
  lemma {:induction false} AddToGroupsHostsOf(inv: Inventory, groups: seq<string>, host: string, x: string)
    requires AddToGroups(inv, groups, host).Ok?
    ensures var r := AddToGroups(inv, groups, host).value;
            HostsOf(r, x) == HostsOf(inv, x) + Repeat(host, Count(groups, x))
    ensures var r := AddToGroups(inv, groups, host).value;
            x in groups ==> x in r && r[x].hosts.Some?
    ensures var r := AddToGroups(inv, groups, host).value;
            x !in groups ==> (x in r <==> x in inv) && (x in inv ==> r[x] == inv[x])
    decreases |groups|
  {
    if |groups| == 0 {
      assert HostsOf(inv, x) + Repeat(host, 0) == HostsOf(inv, x);
    } else {
      AddToGroupsHead(inv, groups, host);
      var g := groups[0];
      var entry := EntryOr(inv, g, NewGroup);
      var inv' := inv[g := entry.(hosts := Some(entry.hosts.value + [host]))];
      var tail := groups[1..];
      assert groups == [g] + tail;
      AddToGroupsHostsOf(inv', tail, host, x);
      var n := Count(tail, x);
      if x == g {
        assert Count(groups, x) == n + 1;
        assert HostsOf(inv', x) == HostsOf(inv, x) + [host];
        assert Repeat(host, n + 1) == [host] + Repeat(host, n);
        assert HostsOf(inv, x) + Repeat(host, n + 1) == HostsOf(inv', x) + Repeat(host, n);
      } else {
        assert Count(groups, x) == n;
        assert HostsOf(inv', x) == HostsOf(inv, x);
      }
    }
  }

  /** Each listed group ends with `host` appended once per listing; every
      other entry is untouched. */
  lemma AddToGroupsHosts(inv: Inventory, groups: seq<string>, host: string)
    requires AddToGroups(inv, groups, host).Ok?
    ensures var r := AddToGroups(inv, groups, host).value;
            forall g :: g in groups ==> r[g].hosts == Some(HostsOf(inv, g) + Repeat(host, Count(groups, g)))
    ensures var r := AddToGroups(inv, groups, host).value;
            forall g :: g in inv && g !in groups ==> r[g] == inv[g]
  {
    var r := AddToGroups(inv, groups, host).value;
    forall g | g in groups
      ensures g in r && r[g].hosts == Some(HostsOf(inv, g) + Repeat(host, Count(groups, g)))
    {
      AddToGroupsHostsOf(inv, groups, host, g);
    }
    forall g | g in inv && g !in groups ensures g in r && r[g] == inv[g] {
      AddToGroupsHostsOf(inv, groups, host, g);
    }
  }

  /** Adding a host to groups never drops a key or shortens a `hosts` list. */
  lemma AddToGroupsGrows(inv: Inventory, groups: seq<string>, host: string)
    requires AddToGroups(inv, groups, host).Ok?
    ensures Grows(inv, AddToGroups(inv, groups, host).value)
  {
    AddToGroupsHosts(inv, groups, host);
  }

  /** `_meta` can take host variables: it is absent, or has `hostvars`. */
  predicate MetaUsable(inv: Inventory)
  {
    Meta !in inv || inv[Meta].hostvars.Some?
  }

  /** `_meta` exists and has `hostvars`. */
  predicate HasHostVars(inv: Inventory)
  {
    Meta in inv && inv[Meta].hostvars.Some?
  }

  /** The variables recorded for `host` under `_meta.hostvars`, empty if none. */
  function HostVarsOf(inv: Inventory, host: string): map<string, VarValue>
  {
    if HasHostVars(inv) && host in inv[Meta].hostvars.value then inv[Meta].hostvars.value[host]
    else map[]
  }

  /** `inv` with `_meta.hostvars[host]` set to `vars`, creating `_meta` if absent. */
  function SetHostVars(inv: Inventory, host: string, vars: map<string, VarValue>): (r: Inventory)
    requires MetaUsable(inv)
    ensures HasHostVars(r) && HostVarsOf(r, host) == vars
    ensures host in r[Meta].hostvars.value
    ensures r.Keys == inv.Keys + {Meta}
    ensures forall k :: k in inv && k != Meta ==> r[k] == inv[k]
    ensures r[Meta] == EntryOr(inv, Meta, NewMeta).(hostvars := r[Meta].hostvars)
    ensures forall h :: h != host ==>
              && (h in r[Meta].hostvars.value <==> HasHostVars(inv) && h in inv[Meta].hostvars.value)
              && HostVarsOf(r, h) == HostVarsOf(inv, h)
  {
    var meta := EntryOr(inv, Meta, NewMeta);
    inv[Meta := meta.(hostvars := Some(meta.hostvars.value[host := vars]))]
  }

  /** The `hostvars` loop: for each `var:value` item, create `_meta` and the
      host's variable map if absent, split the item, coerce its value and
      write it. A `_meta` without `hostvars` (a group named `_meta`) is a
      KeyError; a malformed item is a ValueError. */
  function AddHostVars(inv: Inventory, host: string, items: seq<string>): (r: Result<Inventory>)
    ensures r.Ok? <==> |items| == 0 || (MetaUsable(inv) && AllPairsWellFormed(items))
    ensures r.Err? && !MetaUsable(inv) ==> r.error == MissingField("hostvars")
    ensures r.Err? && MetaUsable(inv) ==> r.error == ParseVarPairs(items).error
    decreases |items|
  {
    if |items| == 0 then Ok(inv)
    else
      var meta := EntryOr(inv, Meta, NewMeta);
      if meta.hostvars.None? then Err(MissingField("hostvars"))
      else
        var hostvars := meta.hostvars.value;
        var vars := if host in hostvars then hostvars[host] else map[];
        ParseVarPairsUnfold(items);
        match ParseVarPair(items[0])
        case Err(e) => Err(e)
        case Ok(pair) =>
          var inv' := inv[Meta := meta.(hostvars := Some(hostvars[host := vars[pair.0 := pair.1]]))];
          assert MetaUsable(inv');
          AddHostVars(inv', host, items[1..])
  }

  /** One turn of the `hostvars` loop: the first item is written, then the
      loop goes on with the rest. */
  lemma AddHostVarsHead(inv: Inventory, host: string, items: seq<string>)
    requires |items| > 0 && AddHostVars(inv, host, items).Ok?
    ensures MetaUsable(inv) && ParseVarPair(items[0]).Ok?
    ensures var pair := ParseVarPair(items[0]).value;
            AddHostVars(inv, host, items)
            == AddHostVars(SetHostVars(inv, host, HostVarsOf(inv, host)[pair.0 := pair.1]), host, items[1..])
  {
    var meta := EntryOr(inv, Meta, NewMeta);
    var hostvars := meta.hostvars.value;
    var vars := if host in hostvars then hostvars[host] else map[];
    assert vars == HostVarsOf(inv, host);
  }

  /** After the `hostvars` loop, `_meta.hostvars[host]` is the old map with
      the parsed pairs written in order, and nothing else has changed. */
  lemma {:induction false} AddHostVarsWrites(inv: Inventory, host: string, items: seq<string>)
    requires |items| > 0 && AddHostVars(inv, host, items).Ok?
    ensures AddHostVars(inv, host, items).value
            == SetHostVars(inv, host, Update(HostVarsOf(inv, host), ParseVarPairs(items).value))
    decreases |items|
  {
    AddHostVarsHead(inv, host, items);
    var pair := ParseVarPair(items[0]).value;
    var w := HostVarsOf(inv, host)[pair.0 := pair.1];
    var inv' := SetHostVars(inv, host, w);
    var tail := items[1..];
    ParseVarPairsCons(items);
    var rest := ParseVarPairs(tail).value;
    assert Update(HostVarsOf(inv, host), ParseVarPairs(items).value) == Update(w, rest) by {
      var pairs := ParseVarPairs(items).value;
      assert pairs[0] == pair && pairs[1..] == rest;
    }
    if |tail| > 0 {
      AddHostVarsWrites(inv', host, tail);
      SetHostVarsTwice(inv, host, w, Update(w, rest));
    } else {
      assert rest == [];
    }
  }

  /** The `hostvars` loop changes only `_meta.hostvars`, and leaves it present. */
  lemma AddHostVarsFrame(inv: Inventory, host: string, items: seq<string>)
    requires |items| > 0 && AddHostVars(inv, host, items).Ok?
    ensures var r := AddHostVars(inv, host, items).value;
            && HasHostVars(r)
            && r.Keys == inv.Keys + {Meta}
            && (forall k :: k in inv && k != Meta ==> r[k] == inv[k])
            && r[Meta] == EntryOr(inv, Meta, NewMeta).(hostvars := r[Meta].hostvars)
            && Grows(inv, r)
            && KeepsGroupData(inv, r)
  {
    AddHostVarsWrites(inv, host, items);
    var r := AddHostVars(inv, host, items).value;
    assert forall k :: k in inv ==> HostsOf(r, k) == HostsOf(inv, k);
  }

  /** A second write of the same host's variables replaces the first. */
  lemma SetHostVarsTwice(inv: Inventory, host: string, a: map<string, VarValue>, b: map<string, VarValue>)
    requires MetaUsable(inv)
    ensures SetHostVars(SetHostVars(inv, host, a), host, b) == SetHostVars(inv, host, b)
  {
    var meta := EntryOr(inv, Meta, NewMeta);
    assert meta.hostvars.value[host := a][host := b] == meta.hostvars.value[host := b];
  }

  // ---------------------------------------------------------------------
  // Group records
  // ---------------------------------------------------------------------

  /** Resets the group's `vars` to `{}`, unless the group NAME contains the
      substring `vars` (the code tests `"vars" not in group` on the name). */
  function ResetVars(inv: Inventory, g: string): (r: Inventory)
    requires g in inv
    ensures r.Keys == inv.Keys
    ensures forall k :: k in inv && k != g ==> r[k] == inv[k]
    ensures r[g] == inv[g].(vars := r[g].vars)
    ensures r[g].vars == (if Contains(g, "vars") then inv[g].vars else Some(map[]))
  {
    if Contains(g, "vars") then inv else inv[g := inv[g].(vars := Some(map[]))]
  }

  /** Resets the group's `children` to `[]`, unless the group NAME contains
      the substring `children`. */
  function ResetChildren(inv: Inventory, g: string): (r: Inventory)
    requires g in inv
    ensures r.Keys == inv.Keys
    ensures forall k :: k in inv && k != g ==> r[k] == inv[k]
    ensures r[g] == inv[g].(children := r[g].children)
    ensures r[g].children == (if Contains(g, "children") then inv[g].children else Some([]))
  {
    if Contains(g, "children") then inv else inv[g := inv[g].(children := Some([]))]
  }

  /** The group `vars` loop: split each item, coerce its value and write it
      into the group's `vars`; a group without `vars` is a KeyError, raised
      after the item was split. */
  function ApplyGroupVars(inv: Inventory, g: string, items: seq<string>): (r: Result<Inventory>)
    requires g in inv
    ensures r.Ok? <==> AllPairsWellFormed(items) && (|items| == 0 || inv[g].vars.Some?)
    ensures r.Err? && inv[g].vars.Some? ==> r.error == ParseVarPairs(items).error
    ensures r.Err? && inv[g].vars.None? ==>
              r.error == (if Count(items[0], ':') == 1 then MissingField("vars") else BadVarPair(items[0]))
    ensures r.Ok? ==> r.value.Keys == inv.Keys
    ensures r.Ok? ==> forall k :: k in inv && k != g ==> r.value[k] == inv[k]
    ensures r.Ok? ==> r.value[g] == inv[g].(vars := r.value[g].vars)
    decreases |items|
  {
    if |items| == 0 then Ok(inv)
    else
      ParseVarPairsUnfold(items);
      match ParseVarPair(items[0])
      case Err(e) => Err(e)
      case Ok(pair) =>
        if inv[g].vars.None? then Err(MissingField("vars"))
        else
          var inv' := SetVars(inv, g, inv[g].vars.value[pair.0 := pair.1]);
          ApplyGroupVars(inv', g, items[1..])
  }

  /** `inv` with the variables of group `g` set to `vars`. */
  function SetVars(inv: Inventory, g: string, vars: map<string, VarValue>): (r: Inventory)
    requires g in inv
    ensures r.Keys == inv.Keys
    ensures forall k :: k in inv && k != g ==> r[k] == inv[k]
    ensures r[g] == inv[g].(vars := Some(vars))
  {
    inv[g := inv[g].(vars := Some(vars))]
  }

  /** A second write of a group's variables replaces the first. */
  lemma SetVarsTwice(inv: Inventory, g: string, a: map<string, VarValue>, b: map<string, VarValue>)
    requires g in inv
    ensures SetVars(SetVars(inv, g, a), g, b) == SetVars(inv, g, b)
  {
    assert SetVars(inv, g, a)[g].(vars := Some(b)) == inv[g].(vars := Some(b));
  }

  /** One step of the group `vars` loop: the first pair is written and the
      loop continues on the rest. */
  lemma ApplyGroupVarsHead(inv: Inventory, g: string, items: seq<string>)
    requires g in inv && |items| > 0 && ApplyGroupVars(inv, g, items).Ok?
    ensures inv[g].vars.Some? && ParseVarPair(items[0]).Ok?
    ensures var pair := ParseVarPair(items[0]).value;
            ApplyGroupVars(inv, g, items)
            == ApplyGroupVars(SetVars(inv, g, inv[g].vars.value[pair.0 := pair.1]), g, items[1..])
  {
  }

  /** After the group `vars` loop, the group's `vars` is the old map with the
      parsed pairs written in order, and nothing else has changed. */
  lemma {:induction false} ApplyGroupVarsWrites(inv: Inventory, g: string, items: seq<string>)
    requires g in inv && |items| > 0 && ApplyGroupVars(inv, g, items).Ok?
    ensures ApplyGroupVars(inv, g, items).value
            == SetVars(inv, g, Update(inv[g].vars.value, ParseVarPairs(items).value))
    decreases |items|
  {
    ApplyGroupVarsHead(inv, g, items);
    var pair := ParseVarPair(items[0]).value;
    var w := inv[g].vars.value[pair.0 := pair.1];
    var inv' := SetVars(inv, g, w);
    var tail := items[1..];
    ParseVarPairsCons(items);
    var rest := ParseVarPairs(tail).value;
    assert Update(inv[g].vars.value, ParseVarPairs(items).value) == Update(w, rest) by {
      var pairs := ParseVarPairs(items).value;
      assert pairs[0] == pair && pairs[1..] == rest;
    }
    if |tail| > 0 {
      ApplyGroupVarsWrites(inv', g, tail);
      SetVarsTwice(inv, g, w, Update(w, rest));
    } else {
      assert rest == [];
    }
  }

  /** The group `children` loop: append each child name to the group's
      `children`; a group without `children` is a KeyError. Child names do
      not create groups. */
  function ApplyChildren(inv: Inventory, g: string, items: seq<string>): (r: Result<Inventory>)
    requires g in inv
    ensures r.Ok? <==> |items| == 0 || inv[g].children.Some?
    ensures r.Err? ==> r.error == MissingField("children")
    ensures r.Ok? && |items| == 0 ==> r.value == inv
    ensures r.Ok? && |items| > 0 ==>
              r.value == inv[g := inv[g].(children := Some(inv[g].children.value + items))]
    decreases |items|
  {
    if |items| == 0 then Ok(inv)
    else if inv[g].children.None? then Err(MissingField("children"))
    else
      var prior := inv[g].children.value;
      var inv' := inv[g := inv[g].(children := Some(prior + [items[0]]))];
      var r := ApplyChildren(inv', g, items[1..]);
      if |items| == 1 then
        assert items == [items[0]];
        r
      else
        assert (prior + [items[0]]) + items[1..] == prior + items;
        assert inv'[g].children.value + items[1..] == prior + items;
        assert r.value == inv'[g := inv'[g].(children := Some(prior + items))];
        assert r.value == inv[g := inv[g].(children := Some(prior + items))];
        r
  }

  // ---------------------------------------------------------------------
  // One record, and the whole fold
  // ---------------------------------------------------------------------

  datatype RecordKind = HostRecord | GroupRecord | Ignored

  /** `hostname` decides first; a `group` counts only with `vars` or `children`. */
  function Classify(store: FieldMap): (k: RecordKind)
    ensures k == HostRecord <==> "hostname" in store
    ensures k == GroupRecord ==> "group" in store && ("vars" in store || "children" in store)
    ensures k == Ignored <==> "hostname" !in store && ("group" !in store || ("vars" !in store && "children" !in store))
  {
    if "hostname" in store then HostRecord
    else if "group" in store && ("vars" in store || "children" in store) then GroupRecord
    else Ignored
  }

  /** The host carries `hostvars`, so processing it fills `_meta`. */
  predicate CarriesHostVars(store: FieldMap)
  {
    "hostname" in store && "hostvars" in store
  }

  /** Every record decodes. */
  predicate AllDecode(records: seq<string>)
    decreases |records|
  {
    |records| == 0 || (Decode(records[0]).Ok? && AllDecode(records[1..]))
  }

  /** The record decodes to a host record carrying `hostvars`. */
  predicate RecordCarriesHostVars(raw: string)
  {
    Decode(raw).Ok? && CarriesHostVars(Decode(raw).value)
  }

  /** Some record decodes to a host record carrying `hostvars`. */
  predicate SomeCarriesHostVars(records: seq<string>)
    decreases |records|
  {
    |records| > 0 && (RecordCarriesHostVars(records[0]) || SomeCarriesHostVars(records[1..]))
  }

  /** `AllDecode` read position by position. */
  lemma {:induction false} AllDecodeAt(records: seq<string>)
    ensures AllDecode(records) <==> forall i :: 0 <= i < |records| ==> Decode(records[i]).Ok?
    decreases |records|
  {
    if |records| > 0 {
      var tail := records[1..];
      AllDecodeAt(tail);
      if AllDecode(records) {
        forall i | 0 <= i < |records| ensures Decode(records[i]).Ok? {
          if i > 0 {
            assert records[i] == tail[i - 1];
          }
        }
      } else if Decode(records[0]).Ok? {
        var j :| 0 <= j < |tail| && !Decode(tail[j]).Ok?;
        assert records[j + 1] == tail[j];
      }
    }
  }

  /** `SomeCarriesHostVars` read position by position. */
  lemma {:induction false} SomeCarriesAt(records: seq<string>)
    ensures SomeCarriesHostVars(records) <==> exists i :: 0 <= i < |records| && RecordCarriesHostVars(records[i])
    decreases |records|
  {
    if |records| > 0 {
      var tail := records[1..];
      SomeCarriesAt(tail);
      if SomeCarriesHostVars(records) && !RecordCarriesHostVars(records[0]) {
        var i :| 0 <= i < |tail| && RecordCarriesHostVars(tail[i]);
        assert records[i + 1] == tail[i];
      }
      if !SomeCarriesHostVars(records) {
        forall i | 0 <= i < |records| ensures !RecordCarriesHostVars(records[i]) {
          if i > 0 {
            assert records[i] == tail[i - 1];
          }
        }
      }
    }
  }

  /** The groups a host record puts its host into. */
  function HostGroups(store: FieldMap): (groups: seq<string>)
    ensures |groups| >= 1
    ensures "groups" !in store ==> groups == [Ungrouped]
    ensures "groups" in store ==> Join(groups, ',') == store["groups"]
    ensures forall i :: 0 <= i < |groups| ==> ',' !in groups[i]
  {
    if "groups" in store then Split(store["groups"], ',') else [Ungrouped]
  }

  /** When a host record succeeds: no listed group exists without `hosts`
      (line 95), and with `hostvars`, `_meta` either is absent and not listed
      as a group or has `hostvars` (lines 102-104), and every item has exactly
      one `:` (line 106). */
  predicate HostRecordSucceeds(inv: Inventory, store: FieldMap)
  {
    var groups := HostGroups(store);
    && (forall i :: 0 <= i < |groups| ==> groups[i] !in inv || inv[groups[i]].hosts.Some?)
    && ("hostvars" in store ==>
          && MetaUsable(inv)
          && (Meta in groups ==> Meta in inv)
          && AllPairsWellFormed(Split(store["hostvars"], ',')))
  }

  /** Group membership leaves `_meta` usable for host variables exactly when
      it was usable and is not created here as a group. */
  lemma MembershipMetaUsable(inv: Inventory, groups: seq<string>, host: string)
    requires AddToGroups(inv, groups, host).Ok?
    ensures MetaUsable(AddToGroups(inv, groups, host).value) <==> MetaUsable(inv) && (Meta in groups ==> Meta in inv)
  {
    var r := AddToGroups(inv, groups, host).value;
    if Meta in r {
      assert r[Meta].hostvars == EntryOr(inv, Meta, NewGroup).hostvars;
    }
  }

  /** A host record: group membership, then host variables. */
  function HostStep(inv: Inventory, store: FieldMap): (r: Result<Inventory>)
    requires "hostname" in store
    ensures r.Ok? <==> HostRecordSucceeds(inv, store)
    ensures r.Ok? ==> Grows(inv, r.value)
    ensures r.Ok? ==> (HasHostVars(r.value) <==> HasHostVars(inv) || "hostvars" in store)
    ensures r.Ok? ==> KeepsGroupData(inv, r.value)
  {
    var host := store["hostname"];
    var groups := HostGroups(store);
    var inv1 :- AddToGroups(inv, groups, host);
    MembershipMetaUsable(inv, groups, host);
    AddToGroupsGrows(inv, groups, host);
    assert KeepsGroupData(inv, inv1);
    assert HasHostVars(inv1) <==> HasHostVars(inv);
    if "hostvars" in store then
      var items := Split(store["hostvars"], ',');
      var r := AddHostVars(inv1, host, items);
      if r.Ok? then
        AddHostVarsFrame(inv1, host, items);
        GrowsTransitive(inv, inv1, r.value);
        r
      else r
    else Ok(inv1)
  }

  /** `b` differs from `a` at most in the `vars` and `children` of group `g`. */
  ghost predicate SameButGroupData(a: Inventory, b: Inventory, g: string)
  {
    && g in a
    && b.Keys == a.Keys
    && (forall k :: k in a && k != g ==> b[k] == a[k])
    && b[g].hosts == a[g].hosts
    && b[g].hostvars == a[g].hostvars
  }

  /** The `vars` part of a group record: reset unless the name says `vars`,
      then the `vars` loop. */
  function GroupVarsPart(inv: Inventory, g: string, store: FieldMap): (r: Result<Inventory>)
    requires g in inv
    ensures r.Ok? ==> SameButGroupData(inv, r.value, g)
    ensures r.Ok? ==> r.value[g].children == inv[g].children
    ensures "vars" !in store ==> r == Ok(inv)
  {
    if "vars" in store then ApplyGroupVars(ResetVars(inv, g), g, Split(store["vars"], ','))
    else Ok(inv)
  }

  /** The `children` part of a group record: reset unless the name says
      `children`, then the `children` loop. */
  function GroupChildrenPart(inv: Inventory, g: string, store: FieldMap): (r: Result<Inventory>)
    requires g in inv
    ensures r.Ok? ==> SameButGroupData(inv, r.value, g)
    ensures r.Ok? ==> r.value[g].vars == inv[g].vars
    ensures "children" !in store ==> r == Ok(inv)
  {
    if "children" in store then ApplyChildren(ResetChildren(inv, g), g, Split(store["children"], ','))
    else Ok(inv)
  }

  /** When a group record succeeds: every `vars` item has exactly one `:`
      (line 122), and a group whose name mentions a field it carries already
      has that field (lines 119 and 128, 130 and 133). */
  predicate GroupRecordSucceeds(inv: Inventory, store: FieldMap)
    requires "group" in store
  {
    var g := store["group"];
    var entry := EntryOr(inv, g, NewGroup);
    && ("vars" in store ==>
          && AllPairsWellFormed(Split(store["vars"], ','))
          && (Contains(g, "vars") ==> entry.vars.Some?))
    && ("children" in store ==> (Contains(g, "children") ==> entry.children.Some?))
  }

  /** A group record: create the group, then its `vars`, then its `children`. */
  function GroupStep(inv: Inventory, store: FieldMap): (r: Result<Inventory>)
    requires "group" in store
    ensures r.Ok? <==> GroupRecordSucceeds(inv, store)
    ensures r.Ok? ==> r.value.Keys == inv.Keys + {store["group"]}
    ensures r.Ok? ==> forall k :: k in r.value ==>
                        r.value[k].hosts == EntryOr(inv, k, NewGroup).hosts
                        && r.value[k].hostvars == EntryOr(inv, k, NewGroup).hostvars
    ensures r.Ok? ==> forall k :: k in inv && k != store["group"] ==> r.value[k] == inv[k]
  {
    var g := store["group"];
    var inv1 := if g in inv then inv else inv[g := NewGroup];
    var inv2 :- GroupVarsPart(inv1, g, store);
    GroupChildrenPart(inv2, g, store)
  }

  /** When processing one decoded store succeeds. */
  predicate StepSucceeds(inv: Inventory, store: FieldMap)
  {
    match Classify(store)
    case HostRecord => HostRecordSucceeds(inv, store)
    case GroupRecord => GroupRecordSucceeds(inv, store)
    case Ignored => true
  }

  /** Processes one decoded store. An ignored store changes nothing; no store
      removes a key or shortens a `hosts` list; `_meta.hostvars` appears
      exactly when a host record with `hostvars` is processed. */
  function Step(inv: Inventory, store: FieldMap): (r: Result<Inventory>)
    ensures r.Ok? <==> StepSucceeds(inv, store)
    ensures Classify(store) == Ignored ==> r == Ok(inv)
    ensures r.Ok? ==> Grows(inv, r.value)
    ensures r.Ok? ==> (HasHostVars(r.value) <==> HasHostVars(inv) || CarriesHostVars(store))
    ensures r.Ok? && "hostname" in store ==> KeepsGroupData(inv, r.value)
    ensures r.Ok? && "hostname" !in store ==> forall k :: k in inv ==> HostsOf(r.value, k) == HostsOf(inv, k)
  {
    match Classify(store)
    case HostRecord => HostStep(inv, store)
    case GroupRecord =>
      var r := GroupStep(inv, store);
      if r.Ok? then
        assert forall k :: k in inv ==> HostsOf(r.value, k) == HostsOf(inv, k);
        r
      else r
    case Ignored => Ok(inv)
  }

  /** The loop over the records, in the order given: decode a record, then
      process its store; the first failure ends the run. */
  function Run(records: seq<string>, inv: Inventory): (r: Result<Inventory>)
    ensures r.Ok? ==> AllDecode(records)
    ensures r.Ok? ==> Grows(inv, r.value)
    ensures r.Ok? ==> (HasHostVars(r.value) <==> HasHostVars(inv) || SomeCarriesHostVars(records))
    decreases |records|
  {
    if |records| == 0 then Ok(inv)
    else
      var store :- Decode(records[0]);
      var inv1 :- Step(inv, store);
      var r := Run(records[1..], inv1);
      if r.Ok? then
        GrowsTransitive(inv, inv1, r.value);
        r
      else r
  }

  /** `dns_inventory`: the fold over all records, from an empty dictionary. */
  function DnsInventory(records: seq<string>): (r: Result<Inventory>)
    ensures r.Ok? ==> AllDecode(records)
    ensures r.Ok? ==> (HasHostVars(r.value) <==> SomeCarriesHostVars(records))
  {
    Run(records, map[])
  }
}
