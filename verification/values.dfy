/** Variable values and the `var:value` items of `hostvars=` and `vars=`
    fields, shared by host variables and group variables. */
module Values {
  import opened Wrappers
  import opened Text

  /** A variable's value: the raw text, or a list when the text was `[a|b|c]`. */
  datatype VarValue = Scalar(text: string) | List(items: seq<string>)

  /** The raw text starts with `[` and ends with `]`. */
  predicate Bracketed(raw: string)
  {
    StartsWith(raw, "[") && EndsWith(raw, "]")
  }

  /** The text a value is written as in a TXT record. */
  function Render(v: VarValue): string
  {
    match v
    case Scalar(text) => text
    case List(items) => "[" + Join(items, '|') + "]"
  }

  /** The values `Coerce` can produce: a scalar that does not look like a
      list, or a non-empty list of pipe-free items. */
  predicate Canonical(v: VarValue)
  {
    match v
    case Scalar(text) => !Bracketed(text)
    case List(items) => |items| >= 1 && forall i :: 0 <= i < |items| ==> '|' !in items[i]
  }

  /** The value coercion: a bracketed text becomes the `|`-split of what lies
      between the brackets, anything else stays the text itself. */
  function Coerce(raw: string): (v: VarValue)
    ensures v.List? <==> Bracketed(raw)
    ensures v.Scalar? ==> v.text == raw
    ensures Render(v) == raw
    ensures Canonical(v)
  {
    if Bracketed(raw) then
      assert raw[..1] == "[" && raw[|raw| - 1..] == "]";
      assert raw[0] == '[' && raw[|raw| - 1] == ']';
      var inner := raw[1..|raw| - 1];
      assert raw == "[" + inner + "]";
      List(Split(inner, '|'))
    else Scalar(raw)
  }

  /** Coercing the rendering of a value gives the value back. */
  lemma CoerceRender(v: VarValue)
    requires Canonical(v)
    ensures Coerce(Render(v)) == v
  {
    if v.List? {
      var raw := Render(v);
      var inner := Join(v.items, '|');
      assert raw[1..|raw| - 1] == inner;
      SplitJoin(v.items, '|');
    }
  }

  /** One `var:value` item: exactly one `:` or the whole run fails. */
  function ParseVarPair(item: string): (r: Result<(string, VarValue)>)
    ensures r.Ok? <==> Count(item, ':') == 1
    ensures r.Err? ==> r.error == BadVarPair(item)
    ensures r.Ok? ==> r.value.0 + ":" + Render(r.value.1) == item && ':' !in r.value.0
    ensures r.Ok? ==> Canonical(r.value.1)
  {
    match SplitOnce(item, ':')
    case None => Err(BadVarPair(item))
    case Some((name, raw)) => Ok((name, Coerce(raw)))
  }

  /** Every item holds exactly one `:`. */
  predicate AllPairsWellFormed(items: seq<string>)
  {
    forall i :: 0 <= i < |items| ==> Count(items[i], ':') == 1
  }

  /** A list is well formed exactly when its head and its tail are. */
  lemma TailWellFormed(items: seq<string>)
    requires |items| > 0
    ensures AllPairsWellFormed(items) <==> Count(items[0], ':') == 1 && AllPairsWellFormed(items[1..])
  {
    if Count(items[0], ':') == 1 && AllPairsWellFormed(items[1..]) {
      forall i | 1 <= i < |items| ensures Count(items[i], ':') == 1 {
        assert items[i] == items[1..][i - 1];
      }
    }
  }

  /** The items of a comma-split variable field, parsed in order; the first
      malformed item is the failure. */
  function ParseVarPairs(items: seq<string>): (r: Result<seq<(string, VarValue)>>)
    ensures r.Ok? <==> AllPairsWellFormed(items)
    ensures r.Ok? ==> |r.value| == |items|
    ensures r.Ok? ==> forall i :: 0 <= i < |items| ==> Ok(r.value[i]) == ParseVarPair(items[i])
    ensures r.Err? ==> exists i :: 0 <= i < |items| && Count(items[i], ':') != 1
                                   && r.error == BadVarPair(items[i]) && AllPairsWellFormed(items[..i])
    decreases |items|
  {
    if |items| == 0 then Ok([])
    else
      match ParseVarPair(items[0])
      case Err(e) =>
        assert AllPairsWellFormed(items[..0]);
        Err(e)
      case Ok(first) =>
        var tail := ParseVarPairs(items[1..]);
        if tail.Err? then
          FirstBadShifted(items, tail.error);
          Err(tail.error)
        else
          TailWellFormed(items);
          ConsPointwise(items, first, tail.value);
          Ok([first] + tail.value)
  }

  /** The pointwise parse of a list, from the parse of its head and the
      pointwise parse of its tail. */
  lemma ConsPointwise(items: seq<string>, first: (string, VarValue), rest: seq<(string, VarValue)>)
    requires |items| > 0 && Ok(first) == ParseVarPair(items[0]) && |rest| == |items| - 1
    requires forall i :: 0 <= i < |rest| ==> Ok(rest[i]) == ParseVarPair(items[1..][i])
    ensures forall i :: 0 <= i < |items| ==> Ok(([first] + rest)[i]) == ParseVarPair(items[i])
  {
    var r := [first] + rest;
    forall i | 0 <= i < |items| ensures Ok(r[i]) == ParseVarPair(items[i]) {
      if i > 0 {
        assert r[i] == rest[i - 1] && items[1..][i - 1] == items[i];
      }
    }
  }

  /** A first malformed item of the tail is a first malformed item of the
      whole list when the head is well formed. */
  lemma FirstBadShifted(items: seq<string>, e: Failure)
    requires |items| >= 1 && Count(items[0], ':') == 1
    requires exists i :: 0 <= i < |items[1..]| && Count(items[1..][i], ':') != 1
                         && e == BadVarPair(items[1..][i]) && AllPairsWellFormed(items[1..][..i])
    ensures exists i :: 0 <= i < |items| && Count(items[i], ':') != 1
                        && e == BadVarPair(items[i]) && AllPairsWellFormed(items[..i])
  {
    var i :| 0 <= i < |items[1..]| && Count(items[1..][i], ':') != 1
             && e == BadVarPair(items[1..][i]) && AllPairsWellFormed(items[1..][..i]);
    assert items[..i + 1] == [items[0]] + items[1..][..i];
    assert AllPairsWellFormed(items[..i + 1]);
  }

  /** Well-formedness and the first failure of a non-empty list, read off
      its head and its tail. */
  lemma ParseVarPairsUnfold(items: seq<string>)
    requires |items| > 0
    ensures AllPairsWellFormed(items) <==> Count(items[0], ':') == 1 && AllPairsWellFormed(items[1..])
    ensures Count(items[0], ':') != 1 ==> ParseVarPairs(items) == Err(BadVarPair(items[0]))
    ensures Count(items[0], ':') == 1 && ParseVarPairs(items[1..]).Err? ==> ParseVarPairs(items) == ParseVarPairs(items[1..])
  {
    TailWellFormed(items);
  }

  /** Parsing a list is parsing its head, then its tail. */
  lemma ParseVarPairsCons(items: seq<string>)
    requires |items| > 0 && AllPairsWellFormed(items)
    ensures ParseVarPairs(items).value == [ParseVarPair(items[0]).value] + ParseVarPairs(items[1..]).value
  {
    TailWellFormed(items);
  }
}
