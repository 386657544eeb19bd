# DNS TXT-record Ansible inventory, modelled in Dafny

`inventory/python_dns_inventory.py` is an Ansible dynamic-inventory script.
It reads the TXT records of one DNS name. Each record is a list of
`key=value` segments separated by `;`, for example
`hostname=web1;groups=web,prod;hostvars=port:80,tags:[a|b]`. From these the
script builds the inventory dictionary that Ansible reads:

- groups, each with `hosts`, and possibly `vars` and `children`;
- a `_meta` entry whose `hostvars` maps each host to its variables.

This project models `DNSInventory.dns_inventory`, the part of the script
that turns the ordered record strings into that dictionary. It has two
stages.

- **Record decoder** (`Record`). It deletes every `"` and space. It splits the
  rest on `;`, splits each segment on `=` into exactly a key and a value, and
  stores the pairs in a flat map where the last duplicate key wins.
- **Inventory assembler** (`Inventory`). This is a left fold over the decoded
  stores. A store with `hostname` is a host record: the host is appended to
  each group in `groups`, or to `ungrouped`, and its `hostvars` go into
  `_meta.hostvars[hostname]`. A store with `group` plus `vars` or `children`
  is a group record: the group is created if needed, then its variables and
  children are filled in. Every other store is ignored.

The variable values of both kinds of record pass through one coercion
(`Values.Coerce`). `[a|b|c]` becomes the list `a`, `b`, `c`. Any other text
stays a scalar.

Modules:

| file | module | content |
|---|---|---|
| wrappers.dfy | `Wrappers` | `Option`, `Result` and the `Failure` kinds (a bad `=` segment, a bad `:` pair, a missing dictionary key) |
| text.dfy | `Text` | Python's `str.split` on a single character, its inverse `Join`, `replace(c, "")`, and the substring test `in` |
| assoc.dfy | `Assoc` | `dict.update` folded over pairs, and `LastWins`, its independent specification |
| values.dfy | `Values` | the value coercion and the `var:value` item parser |
| record.dfy | `Record` | the record decoder |
| inventory.dfy | `Inventory` | the inventory dictionary, the host and group steps, and the fold over all records |
| properties.dfy | `InventoryProperties` | what one record does to the inventory, and what a whole run guarantees |

Every Python exception on this path ends the whole script, so the model
returns `Err` for each one. There are two kinds:

- a `ValueError` from unpacking a split into two names (`BadSegment` in the decoder, `BadVarPair` in a variable item);
- a `KeyError` on `hosts`, `hostvars`, `vars` or `children` (`MissingField`).

The dictionary is one Dafny map from names to `Entry` values. It holds
`_meta` and the groups side by side, as in the code. A record that names a
group `_meta`, or that lists `_meta` in `groups`, therefore collides with the
host-variable entry just as it does in Python.

The model follows what the code does, including these places where the record format suggests otherwise:

- A group's `children` are recorded as names only. No group is created for a child.
- Unless the group name contains `vars` (or `children`), each group record resets that field to `{}` (or `[]`) before applying its own items. A later record therefore replaces, rather than adds to, an earlier one. The test at lines 119 and 130 is a substring test on the group's name, not a key test on the group's entry. When the name does contain the word, the reset is skipped. That reset is the only code that ever creates the field, so a group so named never has it. In a run from the empty dictionary, every group record that gives such a group that field therefore fails (`InventoryProperties.GuardedGroupRecordFailsRun`), with the first error its items reach: a malformed `vars` item raises `ValueError`, and the missing field raises `KeyError` (`Err(MissingField(..))`). The `vars` items come before the `children` items, so a group named `xchildren` with `vars=a:1,bad;children=c` fails on the second `vars` item. There is no path on which such a group accumulates variables or children.
- A malformed segment or pair aborts the whole run instead of being skipped.
- `split("=")` splits on every `=`. A value that itself contains `=` makes the segment malformed.
- `_meta` exists after a run only when it was created. That happens through a host record with `hostvars`, through a host record whose `groups` lists `_meta`, or through a group record named `_meta`. The `_meta.hostvars` table exists exactly when some host record carried `hostvars` (`InventoryProperties.MetaIffHostVarsRecord`).

## Model

| member | source | states |
|---|---|---|
| Text.Split | inventory/python_dns_inventory.py:86-88 | `str.split` on one character: one more piece than there are separators, no piece holds the separator, every character comes from the input, and joining the pieces with the separator gives the input back |
| Text.SplitJoin | inventory/python_dns_inventory.py:86-88 | splitting the join of separator-free pieces gives those pieces back, so split and join are inverse |
| Text.SplitOnce | inventory/python_dns_inventory.py:88 | unpacking a split into two names succeeds exactly when the separator occurs once; the two halves joined by it give the input, and neither holds it |
| Text.Remove | inventory/python_dns_inventory.py:85-86 | `replace(c, "")`: every other character survives, `c` disappears, the length drops by the number of `c`s, and a text without `c` is returned unchanged |
| Text.RemoveAppend | inventory/python_dns_inventory.py:85-86 | removal works piece by piece: removing from `a + b` is removing from `a` followed by removing from `b`, so the kept characters keep their order and multiplicity; with `Remove`'s contract this determines `replace(c, "")` completely |
| Text.Contains | inventory/python_dns_inventory.py:119-130 | the substring test `x in s` holds exactly when `x` occurs at some position of `s` |
| Text.StartsWith | inventory/python_dns_inventory.py:109 | `s.startswith(p)` holds only when `s` is `p` followed by the rest of `s` |
| Text.StartsWithAppend | inventory/python_dns_inventory.py:109 | every text of the form `p + t` starts with `p`, so with `StartsWith`'s contract the test is exact |
| Text.EndsWith | inventory/python_dns_inventory.py:109 | `s.endswith(x)` holds only when `s` is some text followed by `x` |
| Text.EndsWithAppend | inventory/python_dns_inventory.py:109 | every text of the form `t + x` ends with `x`, so with `EndsWith`'s contract the test is exact |
| Assoc.UpdateLastWins | inventory/python_dns_inventory.py:89 | writing pairs into a dict one by one gives the old keys plus the written ones; for each written key, the value of its last pair; and unwritten keys unchanged |
| Assoc.LastWinsUnique | inventory/python_dns_inventory.py:89 | the last-write-wins description determines the resulting dict uniquely |
| Assoc.LastWinsValues | inventory/python_dns_inventory.py:112 | every value of the result is the old value or is written by some pair |
| Record.Clean | inventory/python_dns_inventory.py:85-86 | after stripping, a character is present exactly when it was in the record and is neither `"` nor a space; a record without either is unchanged |
| Record.CleanAppend | inventory/python_dns_inventory.py:85-86 | stripping works piece by piece, so it keeps the order of what it keeps |
| Record.QuotedStringsConcatenate | inventory/python_dns_inventory.py:32-38 | a record made of two quoted strings separated by a space reads as the two strings concatenated, as the header comment promises |
| Record.Segments | inventory/python_dns_inventory.py:86 | there is at least one segment, none holds `"`, space or `;`, and they join with `;` back into the cleaned record |
| Record.ParseSegments | inventory/python_dns_inventory.py:87-88 | segment parsing succeeds exactly when every segment holds one `=`; otherwise it fails naming the first bad segment; on success it gives one pair per segment, in order |
| Record.Decode | inventory/python_dns_inventory.py:84-89 | decoding succeeds exactly when every `;`-segment has exactly one `=`; a failure names a bad segment of the record; on success the store keeps the last value of each duplicate key, and no key or value holds `"` or a space |
| Record.DecodeRoundTrip | inventory/python_dns_inventory.py:85-89 | re-joining the decoded `key=value` segments with `;` gives back the cleaned record |
| Values.Coerce | inventory/python_dns_inventory.py:107-111 | the result is a list exactly when the raw text starts with `[` and ends with `]`; a scalar is the raw text unchanged; rendering the result gives back the raw text; list items hold no `\|`, so with `Text.SplitJoin` a list is exactly the `\|`-split of the text between the brackets |
| Values.CoerceRender | inventory/python_dns_inventory.py:123-127 | coercing the rendering of any value coercion can produce returns that value, so rendering and coercion are inverse |
| Values.ParseVarPair | inventory/python_dns_inventory.py:106-111 | a `var:value` item parses exactly when it holds one `:`, and fails naming the item otherwise; the value is canonical, and the name and the rendered value, joined by `:`, give back the item, so with `Values.CoerceRender` the value is the coercion of the text after the `:` |
| Values.ParseVarPairs | inventory/python_dns_inventory.py:121-127 | all items parse exactly when each holds one `:`; the failure names the first bad item; on success it gives one pair per item, in order |
| Inventory.AddToGroups | inventory/python_dns_inventory.py:92-95 | appending the host to the listed groups fails with KeyError `hosts` exactly when some listed entry exists without `hosts`; otherwise the keys become the old keys plus the listed groups, and only `hosts` lists change |
| Inventory.AddToGroupsHosts | inventory/python_dns_inventory.py:92-95 | each listed group's `hosts` gains the host once per listing, after its old hosts; unlisted entries are unchanged |
| Inventory.AddToGroupsGrows | inventory/python_dns_inventory.py:93-95 | adding a host to groups removes no key and shortens no `hosts` list |
| Inventory.SetHostVars | inventory/python_dns_inventory.py:102-105 | writing a host's variables creates `_meta` if absent, makes `host` a key of `_meta.hostvars` (even for an empty map) and makes `_meta.hostvars[host]` exactly the given map; every other host keeps its variables and whether it has an entry; every other entry and every other field of `_meta` is unchanged |
| Inventory.AddHostVars | inventory/python_dns_inventory.py:101-112 | the `hostvars` loop succeeds exactly when there are no items, or when `_meta` is absent or has `hostvars` and every item holds one `:`; otherwise it fails with KeyError `hostvars` or with the first bad item |
| Inventory.AddHostVarsWrites | inventory/python_dns_inventory.py:101-112 | after the loop, `_meta.hostvars[host]` is the host's old map updated with the parsed pairs in order |
| Inventory.AddHostVarsFrame | inventory/python_dns_inventory.py:100-112 | the `hostvars` loop leaves `_meta.hostvars` present, adds no key but `_meta`, and changes no other entry and no field of `_meta` but `hostvars` |
| Inventory.ResetVars | inventory/python_dns_inventory.py:119-120 | the group's `vars` becomes `{}` unless the group name contains `vars`; nothing else changes |
| Inventory.ResetChildren | inventory/python_dns_inventory.py:130-131 | the group's `children` becomes `[]` unless the group name contains `children`; nothing else changes |
| Inventory.ApplyGroupVars | inventory/python_dns_inventory.py:121-128 | the group `vars` loop succeeds exactly when every item holds one `:` and (there are no items or the group has `vars`); a malformed first item fails with `ValueError` before the KeyError on `vars`, and with `vars` present the first malformed item fails; only the group's `vars` changes |
| Inventory.SetVars | inventory/python_dns_inventory.py:120-128 | writing a group's variables replaces its `vars` by the given map and leaves the keys, its other fields and every other entry unchanged |
| Inventory.ApplyGroupVarsWrites | inventory/python_dns_inventory.py:121-128 | after the loop the group's `vars` is its old map updated with the parsed pairs in order |
| Inventory.ApplyChildren | inventory/python_dns_inventory.py:132-133 | the `children` loop fails with KeyError `children` exactly when there are items and the group has no `children`; otherwise the items are appended in order and nothing else changes |
| Inventory.Classify | inventory/python_dns_inventory.py:90-113 | a store with `hostname` is a host record whatever else it holds; a group record has `group` and `vars` or `children`; every other store is ignored |
| Inventory.HostGroups | inventory/python_dns_inventory.py:91-99 | the groups of a host record are the comma-split of `groups`, pieces that joined with `,` give the field back, or `ungrouped` alone when there is no `groups` |
| Inventory.MembershipMetaUsable | inventory/python_dns_inventory.py:91-105 | after group membership, `_meta` can take host variables exactly when it could before and is not created here as a group |
| Inventory.HostStep | inventory/python_dns_inventory.py:90-112 | a host record succeeds exactly when no listed group exists without `hosts` and, if it has `hostvars`, `_meta` has `hostvars` or is absent and not listed, and every item holds one `:` (`HostRecordSucceeds`); it removes no key, shortens no `hosts` list, and changes no group's `vars` or `children`; `_meta.hostvars` exists afterwards exactly when it existed before or the record has `hostvars` |
| Inventory.GroupVarsPart | inventory/python_dns_inventory.py:118-128 | the `vars` part of a group record changes only that group's `vars`, and a record without `vars` changes nothing |
| Inventory.GroupChildrenPart | inventory/python_dns_inventory.py:129-133 | the `children` part of a group record changes only that group's `children`, and a record without `children` changes nothing |
| Inventory.GroupStep | inventory/python_dns_inventory.py:113-133 | a group record succeeds exactly when every `vars` item holds one `:` and a group whose name contains `vars` (or `children`) already has that field whenever the record carries it (`GroupRecordSucceeds`); it adds at most its own group, creating it as `{"hosts": []}`; it changes no `hosts` list or `hostvars`, and no other entry |
| Inventory.Step | inventory/python_dns_inventory.py:90-133 | a store is processed successfully exactly when its kind's success condition holds (`StepSucceeds`); an ignored store leaves the inventory unchanged; no record removes a key or shortens a `hosts` list; host records keep every `vars` and `children`; group records keep every `hosts` list; `_meta.hostvars` appears exactly when a host record with `hostvars` is processed |
| Inventory.AllDecodeAt | inventory/python_dns_inventory.py:83-89 | the run's decoding condition holds exactly when every record decodes |
| Inventory.SomeCarriesAt | inventory/python_dns_inventory.py:90-100 | the run's host-variable condition holds exactly when some record decodes to a host record with `hostvars` |
| Inventory.Run | inventory/python_dns_inventory.py:83-134 | a successful fold decoded every record, removed no key, shortened no `hosts` list, and has `_meta.hostvars` exactly when it had it before or some record carries host variables |
| Inventory.DnsInventory | inventory/python_dns_inventory.py:81-134 | a successful run decoded every record, and has `_meta.hostvars` exactly when some record is a host record with `hostvars` |
| Inventory.EmptyInventoryHoldsOnlyHostVars | inventory/python_dns_inventory.py:136-138 | the empty inventory holds only `_meta`, whose `hostvars` table is present and empty; it has no group, no host, and no `vars` or `children` |
| InventoryProperties.HostStepIsMembership | inventory/python_dns_inventory.py:90-112 | outside `_meta`, a host record leaves exactly the entries its group membership produces, and the `hosts` lists, `_meta`'s included, are those of the membership step |
| InventoryProperties.HostJoinsListedGroups | inventory/python_dns_inventory.py:91-95 | a host record with `groups` leaves each listed group present with the host appended once per listing, and leaves `ungrouped` untouched unless it is listed |
| InventoryProperties.HostWithoutGroupsIsUngrouped | inventory/python_dns_inventory.py:96-99 | a host record without `groups` appends the host once to `ungrouped`, creating it when absent |
| InventoryProperties.HostStepWritesHostVars | inventory/python_dns_inventory.py:100-112 | a host record with `hostvars` is group membership followed by one write of the host's old variables updated with the record's pairs |
| InventoryProperties.HostVarsLastWins | inventory/python_dns_inventory.py:100-112 | after a host record with `hostvars`, `_meta.hostvars[hostname]` exists, and each variable holds the coerced value of its last pair in the record, or its old value if the record does not name it |
| InventoryProperties.HostVarsOtherHostsUnchanged | inventory/python_dns_inventory.py:104-112 | a host record with `hostvars` leaves every other host's variables, and whether that host has an entry, unchanged |
| InventoryProperties.MalformedHostVarFails | inventory/python_dns_inventory.py:106 | a `hostvars` item without exactly one `:` fails the record |
| InventoryProperties.MetaGroupBlocksHostVars | inventory/python_dns_inventory.py:102-104 | when `_meta` exists without `hostvars` (it was created as a group), a host record with `hostvars` fails: with KeyError `hostvars` when its groups were joined, and otherwise with KeyError `hosts` |
| InventoryProperties.HostRecordIgnoresGroupFields | inventory/python_dns_inventory.py:90 | a store with `hostname` is processed only as a host record: its `group`, `vars` and `children` fields change nothing |
| InventoryProperties.GroupKeepsAbsentFields | inventory/python_dns_inventory.py:113-133 | a group record without `vars` keeps the group's `vars`, and one without `children` keeps its `children`; a group the record creates has neither |
| InventoryProperties.GroupVarsReplaced | inventory/python_dns_inventory.py:114-128 | when the group name lacks `vars`, the group's `vars` become exactly the record's pairs, the last pair for a name winning, and its `hosts` are untouched |
| InventoryProperties.GroupVarsWithoutReset | inventory/python_dns_inventory.py:118-128 | for an arbitrary dictionary, when the group name contains `vars` the record succeeds only if the group already has `vars`, and its pairs are then written over them, the last pair winning; in a run from the empty dictionary this case never succeeds (`GuardedGroupRecordFailsRun`) |
| InventoryProperties.GroupChildrenReplaced | inventory/python_dns_inventory.py:129-133 | when the group name lacks `children`, the group's `children` become exactly the record's comma-split list, in order and with duplicates |
| InventoryProperties.GroupChildrenWithoutReset | inventory/python_dns_inventory.py:129-133 | for an arbitrary dictionary, when the group name contains `children` the record succeeds only if the group already has `children`, and the record's list is then appended to them; in a run from the empty dictionary this case never succeeds (`GuardedGroupRecordFailsRun`) |
| InventoryProperties.HostStepGroupData | inventory/python_dns_inventory.py:90-112 | a host record gives no entry `vars` or `children`: existing entries keep theirs, and the groups and `_meta` it creates have neither |
| InventoryProperties.VarsPartGuarded | inventory/python_dns_inventory.py:118-128 | for a group whose name contains `vars` and that has no `vars`, a record carrying `vars` fails, because the reset is skipped and the first item meets the missing field |
| InventoryProperties.ChildrenPartGuarded | inventory/python_dns_inventory.py:129-132 | for a group whose name contains `children` and that has no `children`, a record carrying `children` fails, because the reset is skipped and the first child meets the missing field |
| InventoryProperties.GroupStepGuarded | inventory/python_dns_inventory.py:113-133 | when no entry whose name contains `vars` has `vars` and none whose name contains `children` has `children`, a successful group record carries neither field for such a name, and the property still holds afterwards |
| InventoryProperties.StepKeepsGuardedFieldsAbsent | inventory/python_dns_inventory.py:90-133 | every successful record keeps the property that no entry whose name contains `vars` has `vars`, and none whose name contains `children` has `children` |
| InventoryProperties.RunKeepsGuardedFieldsAbsent | inventory/python_dns_inventory.py:83-134 | a successful run keeps that property |
| InventoryProperties.GuardedGroupRecordFailsRun | inventory/python_dns_inventory.py:81-134 | a run from the empty dictionary fails whenever some record is a group record whose name contains `vars` and that has `vars`, or the same for `children` |
| InventoryProperties.RunAppend | inventory/python_dns_inventory.py:83-134 | processing two batches of records one after the other is the same as processing their concatenation, and a failure in the first batch is final |
| InventoryProperties.RunSingle | inventory/python_dns_inventory.py:83-90 | a run of one record decodes it, fails with the decoding error if it is malformed, and otherwise processes its store; with `RunAppend` every run reduces to its records one by one |
| InventoryProperties.HostRecordStartsInventory | inventory/python_dns_inventory.py:82-99 | a well-formed host record without `hostvars`, processed first, always produces an inventory |
| InventoryProperties.MalformedRecordFailsRun | inventory/python_dns_inventory.py:87-88 | one record with a segment lacking exactly one `=` fails the whole run, wherever it sits |
| InventoryProperties.MetaIffHostVarsRecord | inventory/python_dns_inventory.py:100-103 | after a successful run, `_meta.hostvars` exists exactly when some record is a host record carrying `hostvars` |

## Left out

- The DNS query and the sort at module level (line 59). The model takes the record texts as a sequence that is already in the order the script processes them. The order of the resolver's record objects is defined in a library that is not part of this model.
- The `ANSIBLE_INVENTORY_DNS_DOMAIN` environment variable (lines 53-56). It only selects the DNS name to query.
- Command-line parsing (lines 141-145), the `__init__` dispatch (lines 63-76) and JSON printing (line 78). These are I/O.
- Dictionary insertion order, and with it the key order of the printed JSON. Maps are unordered here. `hosts` and `children` are sequences, so their order is kept.
- `str(record)`. The model starts from the record's text as the script sees it after `str`.
- `defaultdict(list)` (line 82). Every lookup in the code is guarded by an existence test or follows an assignment, so its default factory never runs. The model uses a plain map.
- The loop over every group at lines 116-117. It finds the one entry named `store["group"]`, so the model addresses that entry directly.
