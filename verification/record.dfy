/** The record decoder: one TXT record's text becomes a flat field store. */
module Record {
  import opened Wrappers
  import opened Text
  import opened Assoc

  /** The store of one record: field name to raw field text. */
  type FieldMap = map<string, string>

  /** The record text with every `"` and every space removed, `"` first. */
  function Clean(raw: string): (r: string)
    ensures forall x :: x in r <==> x in raw && x != '"' && x != ' '
    ensures '"' !in raw && ' ' !in raw ==> r == raw
  {
    Remove(Remove(raw, '"'), ' ')
  }

  /** Cleaning works piece by piece, keeping the order of what it keeps. */
  lemma CleanAppend(a: string, b: string)
    ensures Clean(a + b) == Clean(a) + Clean(b)
  {
    RemoveAppend(a, b, '"');
    RemoveAppend(Remove(a, '"'), Remove(b, '"'), ' ');
  }

  /** `s` as one quoted character-string of a TXT record. */
  function Quoted(s: string): string
  {
    ['"'] + s + ['"']
  }

  /** A record made of several quoted strings separated by a space reads as
      the concatenation of the strings. */
  lemma QuotedStringsConcatenate(a: string, b: string)
    requires '"' !in a && ' ' !in a && '"' !in b && ' ' !in b
    ensures Clean(Quoted(a) + [' '] + Quoted(b)) == a + b
  {
    var q: string := ['"'];
    var sp: string := [' '];
    assert Clean(q) == [] by {
      assert Remove(q, '"') == Remove(q[1..], '"');
    }
    assert Clean(sp) == [] by {
      assert Remove(sp, '"') == sp by {
        assert Remove(sp, '"') == [' '] + Remove(sp[1..], '"');
      }
      assert Remove(sp, ' ') == Remove(sp[1..], ' ');
    }
    CleanAppend(q, a);
    CleanAppend(q + a, q);
    assert Clean(Quoted(a)) == a;
    CleanAppend(q, b);
    CleanAppend(q + b, q);
    assert Clean(Quoted(b)) == b;
    CleanAppend(Quoted(a), sp);
    CleanAppend(Quoted(a) + sp, Quoted(b));
  }

  /** The `;`-separated segments of the cleaned record. */
  function Segments(raw: string): (segs: seq<string>)
    ensures |segs| >= 1
    ensures Join(segs, ';') == Clean(raw)
    ensures forall i, x :: 0 <= i < |segs| && x in segs[i] ==> x != '"' && x != ' ' && x != ';'
  {
    Split(Clean(raw), ';')
  }

  /** Every segment holds exactly one `=`. */
  predicate AllSegmentsWellFormed(segs: seq<string>)
  {
    forall i :: 0 <= i < |segs| ==> Count(segs[i], '=') == 1
  }

  /** Each segment split into its key and value; the first segment without
      exactly one `=` is the failure. */
  function ParseSegments(segs: seq<string>): (r: Result<seq<(string, string)>>)
    ensures r.Ok? <==> AllSegmentsWellFormed(segs)
    ensures r.Ok? ==> |r.value| == |segs|
    ensures r.Ok? ==> forall i :: 0 <= i < |segs| ==>
                        && r.value[i].0 + "=" + r.value[i].1 == segs[i]
                        && '=' !in r.value[i].0 && '=' !in r.value[i].1
    ensures r.Err? ==> exists i :: 0 <= i < |segs| && Count(segs[i], '=') != 1
                                   && r.error == BadSegment(segs[i]) && AllSegmentsWellFormed(segs[..i])
    decreases |segs|
  {
    if |segs| == 0 then Ok([])
    else
      match SplitOnce(segs[0], '=')
      case None =>
        assert AllSegmentsWellFormed(segs[..0]);
        Err(BadSegment(segs[0]))
      case Some(kv) =>
        var tail := ParseSegments(segs[1..]);
        if tail.Err? then
          FirstBadShifted(segs, tail.error);
          Err(tail.error)
        else
          var r := [kv] + tail.value;
          SegmentsTailWellFormed(segs);
          forall i | 1 <= i < |segs|
            ensures && r[i].0 + "=" + r[i].1 == segs[i]
                    && '=' !in r[i].0 && '=' !in r[i].1
          {
            assert r[i] == tail.value[i - 1] && segs[1..][i - 1] == segs[i];
          }
          Ok(r)
  }

  /** A segment list is well formed exactly when its head and its tail are. */
  lemma SegmentsTailWellFormed(segs: seq<string>)
    requires |segs| > 0
    ensures AllSegmentsWellFormed(segs) <==> Count(segs[0], '=') == 1 && AllSegmentsWellFormed(segs[1..])
  {
    if Count(segs[0], '=') == 1 && AllSegmentsWellFormed(segs[1..]) {
      forall i | 1 <= i < |segs| ensures Count(segs[i], '=') == 1 {
        assert segs[i] == segs[1..][i - 1];
      }
    }
  }

  /** A first malformed segment of the tail is a first malformed segment of
      the whole list when the head is well formed. */
  lemma FirstBadShifted(segs: seq<string>, e: Failure)
    requires |segs| >= 1 && Count(segs[0], '=') == 1
    requires exists i :: 0 <= i < |segs[1..]| && Count(segs[1..][i], '=') != 1
                         && e == BadSegment(segs[1..][i]) && AllSegmentsWellFormed(segs[1..][..i])
    ensures exists i :: 0 <= i < |segs| && Count(segs[i], '=') != 1
                        && e == BadSegment(segs[i]) && AllSegmentsWellFormed(segs[..i])
  {
    var i :| 0 <= i < |segs[1..]| && Count(segs[1..][i], '=') != 1
             && e == BadSegment(segs[1..][i]) && AllSegmentsWellFormed(segs[1..][..i]);
    assert segs[..i + 1] == [segs[0]] + segs[1..][..i];
    assert AllSegmentsWellFormed(segs[..i + 1]);
  }

  /** `key=value` text of a decoded pair. */
  function RenderSegment(kv: (string, string)): string
  {
    kv.0 + "=" + kv.1
  }

  /** Decodes one record. It succeeds exactly when every segment holds one
      `=`; the store then maps each key to the value of the LAST segment
      naming it, and no key or value holds a `"` or a space. */
  function Decode(raw: string): (r: Result<FieldMap>)
    ensures r.Ok? <==> AllSegmentsWellFormed(Segments(raw))
    ensures r.Err? ==> r.error.BadSegment? && r.error.segment in Segments(raw)
                       && Count(r.error.segment, '=') != 1
    ensures r.Ok? ==> LastWins(map[], ParseSegments(Segments(raw)).value, r.value)
    ensures r.Ok? ==> forall k :: k in r.value ==>
                        '"' !in k && ' ' !in k && '"' !in r.value[k] && ' ' !in r.value[k]
  {
    var segs := Segments(raw);
    var pairs :- ParseSegments(segs);
    var store := Update(map[], pairs);
    UpdateLastWins(map[], pairs);
    forall k | k in store
      ensures '"' !in k && ' ' !in k && '"' !in store[k] && ' ' !in store[k]
    {
      LastWinsValues(map[], pairs, store, k);
      var i :| 0 <= i < |pairs| && pairs[i] == (k, store[k]);
      assert RenderSegment(pairs[i]) == segs[i];
      assert forall x :: x in k ==> x in segs[i];
      assert forall x :: x in store[k] ==> x in segs[i];
    }
    Ok(store)
  }

  /** Re-joining the decoded pairs as `key=value` with `;` gives back the
      cleaned record text, pair for segment. */
  lemma DecodeRoundTrip(raw: string)
    requires AllSegmentsWellFormed(Segments(raw))
    ensures var pairs := ParseSegments(Segments(raw)).value;
            Join(seq(|pairs|, i requires 0 <= i < |pairs| => RenderSegment(pairs[i])), ';') == Clean(raw)
  {
    var segs := Segments(raw);
    var pairs := ParseSegments(segs).value;
    assert seq(|pairs|, i requires 0 <= i < |pairs| => RenderSegment(pairs[i])) == segs;
  }
}
