/** The order-preserving map used for a theme's globals (theme.Map) and the
    way it is decoded from the stream of JSON tokens of the `globals` object. */
module Globals {

  /** A token delivered by the streaming JSON decoder: a string, or any other
      token (object and array delimiters, numbers, booleans, null). */
  datatype Token = Str(s: string) | Other

  /** theme.Map: the keys in the order they were read, and their raw values. */
  datatype OrderedMap = OrderedMap(keys: seq<string>, data: map<string, string>)

  /** Every listed key has a value and no other key has one. */
  predicate KeysMatchData(keys: seq<string>, data: map<string, string>) {
    (forall k :: k in keys ==> k in data) && (forall k :: k in data ==> k in keys)
  }

  /** The decoding loop's variables: the pending key ("" when none is
      pending) and the keys and values collected so far. */
  datatype Decoder = Decoder(key: string, keys: seq<string>, data: map<string, string>)

  const Start := Decoder("", [], map[])

  /** One iteration of the decoding loop. Non-string tokens are skipped; a
      string becomes the pending key when none is pending, and otherwise is the
      value paired with it. An empty string cannot be told from "no key
      pending". */
  function Feed(d: Decoder, t: Token): Decoder {
    match t
    case Other => d
    case Str(v) =>
      if d.key == "" then d.(key := v)
      else Decoder("", d.keys + [d.key], d.data[d.key := v])
  }

  /** The decoding loop over the remaining tokens. */
  function Run(d: Decoder, ts: seq<Token>): (r: Decoder)
    ensures KeysMatchData(d.keys, d.data) ==> KeysMatchData(r.keys, r.data)
    ensures |d.keys| <= |r.keys| && r.keys[..|d.keys|] == d.keys
    decreases |ts|
  {
    if |ts| == 0 then d else Run(Feed(d, ts[0]), ts[1..])
  }

  /** Map.UnmarshalJSON over a token stream; a key left pending at the end is
      dropped. */
  function Decode(ts: seq<Token>): (m: OrderedMap)
    ensures KeysMatchData(m.keys, m.data)
  {
    var d := Run(Start, ts);
    OrderedMap(d.keys, d.data)
  }

  /** Map.UnmarshalJSON called on a map that may already hold keys, as when
      a theme file names its globals member twice: the data is reset to an
      empty map, but the key list is appended to, so the earlier keys stay
      listed without data. */
  function Unmarshal(m: OrderedMap, ts: seq<Token>): (r: OrderedMap)
    ensures r.keys == m.keys + Decode(ts).keys
    ensures r.data == Decode(ts).data
  {
    var d := Run(Decoder("", m.keys, map[]), ts);
    RunIsPairing(Decoder("", m.keys, map[]), ts);
    RunIsPairing(Start, ts);
    OrderedMap(d.keys, d.data)
  }

  /** On a fresh map (no keys yet) the call is exactly Decode, whatever data
      the map held before. */
  lemma UnmarshalFresh(data: map<string, string>, ts: seq<Token>)
    ensures Unmarshal(OrderedMap([], data), ts) == Decode(ts)
  {
    assert [] + Decode(ts).keys == Decode(ts).keys;
  }

  /** The keys and data of the result agree exactly when every key the map
      held before is named again by the new tokens. */
  lemma UnmarshalAgreesIff(m: OrderedMap, ts: seq<Token>)
    ensures KeysMatchData(Unmarshal(m, ts).keys, Unmarshal(m, ts).data)
        <==> forall k :: k in m.keys ==> k in Decode(ts).keys
  {
  }

  /** A second globals member: the first member's key stays listed but loses
      its value. */
  lemma UnmarshalRepeated()
    ensures Unmarshal(Decode([Str("a"), Str("1")]), [Str("b"), Str("2")])
         == OrderedMap(["a", "b"], map["b" := "2"])
    ensures !KeysMatchData(["a", "b"], map["b" := "2"])
  {
    assert "a" in ["a", "b"];
  }

  /** The key still pending after the tokens (the empty string when none). */
  function Pending(ts: seq<Token>): string {
    Run(Start, ts).key
  }

  // A reference reading of the same decoding: the string tokens, paired up.

  /** The string tokens, in order. */
  function Strings(ts: seq<Token>): (ss: seq<string>)
    ensures |ss| <= |ts|
  {
    if |ts| == 0 then []
    else match ts[0]
      case Str(s) => [s] + Strings(ts[1..])
      case Other => Strings(ts[1..])
  }

  /** The (key, value) pairs formed from a sequence of strings: a non-empty
      string followed by any string forms a pair; an empty string in key
      position is skipped, and a final lone key forms nothing. */
  function Pairs(ss: seq<string>): seq<(string, string)> {
    if |ss| == 0 then []
    else if ss[0] == "" then Pairs(ss[1..])
    else if |ss| == 1 then []
    else [(ss[0], ss[1])] + Pairs(ss[2..])
  }

  function KeysOf(ps: seq<(string, string)>): seq<string> {
    if |ps| == 0 then [] else [ps[0].0] + KeysOf(ps[1..])
  }

  /** Stores the pairs into a map in order, so a later value for a key wins. */
  function Store(data: map<string, string>, ps: seq<(string, string)>): map<string, string>
    decreases |ps|
  {
    if |ps| == 0 then data else Store(data[ps[0].0 := ps[0].1], ps[1..])
  }

  lemma {:induction false} RunIsPairing(d: Decoder, ts: seq<Token>)
    ensures Run(d, ts).keys == d.keys + KeysOf(Pairs([d.key] + Strings(ts)))
    ensures Run(d, ts).data == Store(d.data, Pairs([d.key] + Strings(ts)))
    decreases |ts|
  {
    if |ts| == 0 {
    } else {
      var rest := Strings(ts[1..]);
      RunIsPairing(Feed(d, ts[0]), ts[1..]);
      match ts[0]
      case Other =>
      case Str(v) =>
        if d.key == "" {
          assert ([d.key] + ([v] + rest))[1..] == [v] + rest;
        } else {
          assert ([d.key] + ([v] + rest))[2..] == rest;
          assert ([""] + rest)[1..] == rest;
        }
    }
  }

  /** The decoded keys are the keys of the pairs, in document order, and each
      key holds the value of its last pair. */
  lemma DecodeIsPairing(ts: seq<Token>)
    ensures Decode(ts) == OrderedMap(KeysOf(Pairs(Strings(ts))), Store(map[], Pairs(Strings(ts))))
  {
    RunIsPairing(Start, ts);
    assert ([""] + Strings(ts))[1..] == Strings(ts);
  }

  lemma {:induction false} StringsAppend(a: seq<Token>, b: seq<Token>)
    ensures Strings(a + b) == Strings(a) + Strings(b)
    decreases |a|
  {
    if |a| > 0 {
      StringsAppend(a[1..], b);
      assert (a + b)[1..] == a[1..] + b;
    } else {
      assert a + b == b;
    }
  }

  /** A non-string token anywhere in the stream changes nothing. */
  lemma DecodeSkipsOther(a: seq<Token>, b: seq<Token>)
    ensures Decode(a + [Other] + b) == Decode(a + b)
  {
    StringsAppend(a + [Other], b);
    StringsAppend(a, [Other]);
    StringsAppend(a, b);
    assert Strings([Other]) == Strings([Other][1..]) == [];
    assert Strings(a + [Other] + b) == Strings(a + b);
    DecodeIsPairing(a + [Other] + b);
    DecodeIsPairing(a + b);
  }

  lemma {:induction false} RunAppend(d: Decoder, a: seq<Token>, b: seq<Token>)
    ensures Run(d, a + b) == Run(Run(d, a), b)
    decreases |a|
  {
    if |a| > 0 {
      assert (a + b)[1..] == a[1..] + b;
      RunAppend(Feed(d, a[0]), a[1..], b);
    } else {
      assert a + b == b;
    }
  }

  /** A key/value pair read when no key is pending appends the key to the
      key list (once per occurrence, so a repeated key is listed again) and
      sets its value, replacing any earlier one. */
  lemma DecodeAppendPair(ts: seq<Token>, k: string, v: string)
    requires Pending(ts) == "" && k != ""
    ensures Decode(ts + [Str(k), Str(v)]).keys == Decode(ts).keys + [k]
    ensures Decode(ts + [Str(k), Str(v)]).data == Decode(ts).data[k := v]
    ensures Pending(ts + [Str(k), Str(v)]) == ""
  {
    RunAppend(Start, ts, [Str(k), Str(v)]);
    var d := Run(Start, ts);
    assert Run(d, [Str(k), Str(v)]) == Run(Feed(d, Str(k)), [Str(v)]);
    assert Run(Feed(d, Str(k)), [Str(v)]) == Run(Feed(Feed(d, Str(k)), Str(v)), []);
  }

  /** An empty string read when no key is pending is taken as "no key", so the
      next string becomes the key. */
  lemma DecodeEmptyKey(ts: seq<Token>, rest: seq<Token>)
    requires Pending(ts) == ""
    ensures Decode(ts + [Str("")] + rest) == Decode(ts + rest)
  {
    RunAppend(Start, ts + [Str("")], rest);
    RunAppend(Start, ts, [Str("")]);
    RunAppend(Start, ts, rest);
  }

  /** A trailing key without a value is dropped. */
  lemma DecodeDropsTrailingKey(ts: seq<Token>, k: string)
    requires Pending(ts) == ""
    ensures Decode(ts + [Str(k)]) == Decode(ts)
  {
    RunAppend(Start, ts, [Str(k)]);
  }

  /** A duplicated key is listed twice and keeps its last value. */
  lemma DecodeDuplicateKey()
    ensures Decode([Other, Str("a"), Str("1"), Str("a"), Str("2"), Other])
         == OrderedMap(["a", "a"], map["a" := "2"])
  {
  }
}
