/** The saved form of a B+ tree and of a hash index: big-endian lengths before every variable part.
    `None` stands for an exception of the source. */
module NodeCodec {
  import opened Wrappers
  import opened BPlusTree
  import opened Sequences

  type Byte = b: int | 0 <= b < 256

  const LIMIT := 0x1_0000_0000

  // ---- numbers and positions ----

  /** `to_bytes(4, 'big')`, which refuses what does not fit. */
  function Word(n: int): (r: Option<seq<Byte>>)
    ensures r.Some? <==> 0 <= n < LIMIT
    ensures r.Some? ==> |r.value| == 4
  {
    if 0 <= n < LIMIT then Some([n / 0x100 / 0x100 / 0x100, n / 0x100 / 0x100 % 0x100, n / 0x100 % 0x100, n % 0x100]) else None
  }

  /** `from_bytes(_, 'big')`, of however many bytes there are. */
  function Number(b: seq<Byte>): nat {
    if b == [] then 0 else 0x100 * Number(b[..|b| - 1]) + b[|b| - 1]
  }

  /** A slice that ends where the data ends. */
  function Slice(b: seq<Byte>, i: nat, n: nat): seq<Byte> {
    if i >= |b| then [] else if i + n > |b| then b[i..] else b[i..i + n]
  }

  function WordAt(b: seq<Byte>, i: nat): nat {
    Number(Slice(b, i, 4))
  }

  lemma FourDigits(a: Byte, b: Byte, c: Byte, d: Byte)
    ensures Number([a, b, c, d]) == 0x100_0000 * a + 0x1_0000 * b + 0x100 * c + d
  {
    var w := [a, b, c, d];
    assert w[..3] == [a, b, c] && [a, b, c][..2] == [a, b] && [a, b][..1] == [a] && [a][..0] == [];
    assert Number([a]) == a && Number([a, b]) == 0x100 * a + b;
  }

  lemma WordReads(b: seq<Byte>, i: nat, n: nat)
    requires Word(n).Some? && At(b, i, Word(n).value)
    ensures WordAt(b, i) == n
  {
    hide Number;
    var a, c, d := n / 0x100, n / 0x100 / 0x100, n / 0x100 / 0x100 / 0x100;
    FourDigits(d, c % 0x100, a % 0x100, n % 0x100);
    assert Slice(b, i, 4) == Word(n).value;
  }

  // ---- writing ----

  /** One part after another; an exception in either is one in the whole. */
  function Then(a: Option<seq<Byte>>, b: Option<seq<Byte>>): Option<seq<Byte>> {
    if a.Some? && b.Some? then Some(a.value + b.value) else None
  }

  /** A text encoding and its reverse, such as UTF-8. */
  datatype Texts = Texts(encode: Key -> seq<Byte>, decode: seq<Byte> -> Option<Key>)

  ghost predicate Inverse(u: Texts) {
    forall k :: u.decode(u.encode(k)) == Some(k)
  }

  function EncodeKeys(ks: seq<Key>, u: Texts): Option<seq<Byte>> {
    if ks == [] then Some([])
    else Then(Then(Word(|u.encode(ks[0])|), Some(u.encode(ks[0]))), EncodeKeys(ks[1..], u))
  }

  function EncodeVals(vs: seq<int>): Option<seq<Byte>> {
    if vs == [] then Some([]) else Then(Word(vs[0]), EncodeVals(vs[1..]))
  }

  /** A tree whose nodes carry their order. */
  function Encode(t: Tree<nat>, u: Texts): Option<seq<Byte>>
    decreases t, 1
  {
    var children := if t.Leaf? then EncodeVals(t.vals) else EncodeKids(t.kids, u);
    var n := if t.Leaf? then |t.vals| else |t.kids|;
    Then(Word(t.id), Then(Some([if t.Leaf? then 1 else 0]),
                          Then(Word(|t.keys|), Then(EncodeKeys(t.keys, u), Then(Word(n), children)))))
  }

  function EncodeKids(ts: seq<Tree<nat>>, u: Texts): Option<seq<Byte>>
    decreases ts, 0
  {
    if ts == [] then Some([])
    else
      var first := Encode(ts[0], u);
      Then(Then(if first.Some? then Word(|first.value|) else None, first), EncodeKids(ts[1..], u))
  }

  // ---- reading ----

  /** What is read, and the offset after it. */
  datatype Read<T> = Read(value: T, end: nat)

  function DecodeKeys(b: seq<Byte>, i: nat, n: nat, u: Texts): Option<Read<seq<Key>>>
    decreases n
  {
    if n == 0 then Some(Read([], i))
    else
      var len := WordAt(b, i);
      var k := u.decode(Slice(b, i + 4, len));
      if k.None? then None
      else
        var rest := DecodeKeys(b, i + 4 + len, n - 1, u);
        if rest.None? then None else Some(Read([k.value] + rest.value.value, rest.value.end))
  }

  function DecodeVals(b: seq<Byte>, i: nat, n: nat): Read<seq<int>>
    decreases n
  {
    if n == 0 then Read([], i)
    else
      var rest := DecodeVals(b, i + 4, n - 1);
      Read([WordAt(b, i)] + rest.value, rest.end)
  }

  function Left(b: seq<Byte>, i: nat): nat {
    if i <= |b| then |b| - i else 0
  }

  function Decode(b: seq<Byte>, i: nat, u: Texts): (r: Option<Read<Tree<nat>>>)
    ensures r.Some? ==> r.value.end >= i
    decreases Left(b, i), 1, 0
  {
    if i + 4 >= |b| then None
    else
      var order, leaf := WordAt(b, i), b[i + 4] == 1;
      var keys := DecodeKeys(b, i + 9, WordAt(b, i + 5), u);
      if keys.None? then None
      else
        KeysForward(b, i + 9, WordAt(b, i + 5), u);
        var j := keys.value.end;
        var n := WordAt(b, j);
        if leaf then
          var vals := DecodeVals(b, j + 4, n);
          ValsForward(b, j + 4, n);
          Some(Read(Leaf(order, keys.value.value, vals.value), vals.end))
        else
          var kids := DecodeKids(b, j + 4, n, u);
          if kids.None? then None else Some(Read(Inner(order, keys.value.value, kids.value.value), kids.value.end))
  }

  function DecodeKids(b: seq<Byte>, i: nat, n: nat, u: Texts): (r: Option<Read<seq<Tree<nat>>>>)
    ensures r.Some? ==> r.value.end >= i
    decreases Left(b, i), 0, n
  {
    if n == 0 then Some(Read([], i))
    else if i + 4 >= |b| then None
    else
      var first := Decode(b, i + 4, u);
      if first.None? then None
      else
        var rest := DecodeKids(b, first.value.end, n - 1, u);
        if rest.None? then None else Some(Read([first.value.value] + rest.value.value, rest.value.end))
  }

  lemma {:induction false} KeysForward(b: seq<Byte>, i: nat, n: nat, u: Texts)
    ensures DecodeKeys(b, i, n, u).Some? ==> DecodeKeys(b, i, n, u).value.end >= i
    decreases n
  {
    if n > 0 {
      KeysForward(b, i + 4 + WordAt(b, i), n - 1, u);
    }
  }

  lemma {:induction false} ValsForward(b: seq<Byte>, i: nat, n: nat)
    ensures DecodeVals(b, i, n).end >= i
    decreases n
  {
    if n > 0 {
      ValsForward(b, i + 4, n - 1);
    }
  }

  // ---- reading back what was written, anywhere in a buffer ----

  lemma Restored(u: Texts, k: Key)
    requires Inverse(u)
    ensures u.decode(u.encode(k)) == Some(k)
  {
  }

  lemma {:induction false} KeysBack(b: seq<Byte>, i: nat, ks: seq<Key>, u: Texts)
    requires Inverse(u) && EncodeKeys(ks, u).Some? && At(b, i, EncodeKeys(ks, u).value)
    ensures DecodeKeys(b, i, |ks|, u) == Some(Read(ks, i + |EncodeKeys(ks, u).value|))
    decreases ks
  {
    hide Word, WordAt;
    if ks != [] {
      var w, k, rest := Word(|u.encode(ks[0])|).value, u.encode(ks[0]), EncodeKeys(ks[1..], u).value;
      assert EncodeKeys(ks, u).value == w + k + rest;
      AtParts(b, i, w + k, rest);
      AtParts(b, i, w, k);
      WordReads(b, i, |k|);
      assert Slice(b, i + 4, |k|) == k;
      Restored(u, ks[0]);
      KeysBack(b, i + 4 + |k|, ks[1..], u);
      KeysJoin(b, i, ks, u);
    }
  }

  lemma KeysJoin(b: seq<Byte>, i: nat, ks: seq<Key>, u: Texts)
    requires ks != [] && u.decode(Slice(b, i + 4, WordAt(b, i))) == Some(ks[0])
    requires var rest := DecodeKeys(b, i + 4 + WordAt(b, i), |ks[1..]|, u); rest.Some? && rest.value.value == ks[1..]
    ensures DecodeKeys(b, i, |ks|, u) == Some(Read(ks, DecodeKeys(b, i + 4 + WordAt(b, i), |ks[1..]|, u).value.end))
  {
    hide WordAt, Slice;
    assert [ks[0]] + ks[1..] == ks;
  }

  lemma {:induction false} ValsBack(b: seq<Byte>, i: nat, vs: seq<int>)
    requires EncodeVals(vs).Some? && At(b, i, EncodeVals(vs).value)
    ensures DecodeVals(b, i, |vs|) == Read(vs, i + |EncodeVals(vs).value|)
    decreases vs
  {
    if vs != [] {
      assert EncodeVals(vs).value == Word(vs[0]).value + EncodeVals(vs[1..]).value;
      AtParts(b, i, Word(vs[0]).value, EncodeVals(vs[1..]).value);
      WordReads(b, i, vs[0]);
      ValsBack(b, i + 4, vs[1..]);
      assert [vs[0]] + vs[1..] == vs;
    }
  }

  lemma {:induction false} RoundTrip(b: seq<Byte>, i: nat, t: Tree<nat>, u: Texts)
    requires Inverse(u) && Encode(t, u).Some? && At(b, i, Encode(t, u).value)
    ensures Decode(b, i, u) == Some(Read(t, i + |Encode(t, u).value|))
    decreases t, 1
  {
    hide At, Word, Number, Slice, WordAt, EncodeKeys, EncodeVals, DecodeKeys, DecodeVals, DecodeKids, EncodeKids;
    var children := if t.Leaf? then EncodeVals(t.vals) else EncodeKids(t.kids, u);
    var n := if t.Leaf? then |t.vals| else |t.kids|;
    var order, flag, count, keys, count' := Word(t.id).value, [if t.Leaf? then 1 else 0], Word(|t.keys|).value, EncodeKeys(t.keys, u).value, Word(n).value;
    HeaderParts(b, i, order, flag, count, keys, count', children.value);
    WordReads(b, i, t.id);
    WordReads(b, i + 5, |t.keys|);
    KeysBack(b, i + 9, t.keys, u);
    WordReads(b, i + 9 + |keys|, n);
    if t.Leaf? {
      ValsBack(b, i + 13 + |keys|, t.vals);
    } else {
      KidsBack(b, i + 13 + |keys|, t.kids, u);
    }
  }

  lemma HeaderParts(b: seq<Byte>, i: nat, order: seq<Byte>, flag: seq<Byte>, count: seq<Byte>, keys: seq<Byte>, count': seq<Byte>, children: seq<Byte>)
    requires |order| == 4 && |flag| == 1 && |count| == 4 && |count'| == 4
    requires At(b, i, order + (flag + (count + (keys + (count' + children)))))
    ensures At(b, i, order) && i + 13 + |keys| <= |b| && b[i + 4] == flag[0] && At(b, i + 5, count) && At(b, i + 9, keys)
    ensures At(b, i + 9 + |keys|, count') && At(b, i + 13 + |keys|, children)
  {
    AtParts(b, i, order, flag + (count + (keys + (count' + children))));
    AtParts(b, i + 4, flag, count + (keys + (count' + children)));
    assert b[i + 4..i + 5][0] == flag[0];
    AtParts(b, i + 5, count, keys + (count' + children));
    AtParts(b, i + 9, keys, count' + children);
    AtParts(b, i + 9 + |keys|, count', children);
  }

  lemma {:induction false} KidsBack(b: seq<Byte>, i: nat, ts: seq<Tree<nat>>, u: Texts)
    requires Inverse(u) && EncodeKids(ts, u).Some? && At(b, i, EncodeKids(ts, u).value)
    ensures DecodeKids(b, i, |ts|, u) == Some(Read(ts, i + |EncodeKids(ts, u).value|))
    decreases ts, 0
  {
    hide At, Encode, Decode;
    if ts != [] {
      FirstKid(b, i, ts, u);
      var n := |Encode(ts[0], u).value|;
      RoundTrip(b, i + 4, ts[0], u);
      KidsBack(b, i + 4 + n, ts[1..], u);
      KidsJoin(b, i, ts, n, u);
    }
  }

  lemma EncodedLong(t: Tree<nat>, u: Texts)
    requires Encode(t, u).Some?
    ensures |Encode(t, u).value| >= 4
  {
  }

  lemma FirstKid(b: seq<Byte>, i: nat, ts: seq<Tree<nat>>, u: Texts)
    requires EncodeKids(ts, u).Some? && At(b, i, EncodeKids(ts, u).value) && ts != []
    ensures Encode(ts[0], u).Some? && EncodeKids(ts[1..], u).Some?
    ensures var n := |Encode(ts[0], u).value|;
            && i + 4 < |b| && At(b, i + 4, Encode(ts[0], u).value) && At(b, i + 4 + n, EncodeKids(ts[1..], u).value)
            && |EncodeKids(ts, u).value| == 4 + n + |EncodeKids(ts[1..], u).value|
  {
    hide Word, Encode;
    EncodedLong(ts[0], u);
    var first, rest := Encode(ts[0], u).value, EncodeKids(ts[1..], u).value;
    var w := Word(|first|).value;
    AtParts(b, i, w + first, rest);
    AtParts(b, i, w, first);
  }

  lemma KidsJoin(b: seq<Byte>, i: nat, ts: seq<Tree<nat>>, n: nat, u: Texts)
    requires ts != [] && i + 4 < |b| && Decode(b, i + 4, u) == Some(Read(ts[0], i + 4 + n))
    requires DecodeKids(b, i + 4 + n, |ts[1..]|, u).Some? && DecodeKids(b, i + 4 + n, |ts[1..]|, u).value.value == ts[1..]
    ensures DecodeKids(b, i, |ts|, u) == Some(Read(ts, DecodeKids(b, i + 4 + n, |ts[1..]|, u).value.end))
  {
    hide Decode, At;
    assert [ts[0]] + ts[1..] == ts;
  }

  // ---- the hash index: keys with the rows that have them ----

  type Item = (Key, seq<int>)

  function EncodeItems(items: seq<Item>, u: Texts): Option<seq<Byte>> {
    if items == [] then Some([])
    else
      var text, vals := u.encode(items[0].0), items[0].1;
      Then(Then(Then(Word(|text|), Some(text)), Then(Word(|vals|), EncodeVals(vals))), EncodeItems(items[1..], u))
  }

  function EncodeHash(items: seq<Item>, u: Texts): Option<seq<Byte>> {
    Then(Word(|items|), EncodeItems(items, u))
  }

  function DecodeItems(b: seq<Byte>, i: nat, n: nat, u: Texts): Option<seq<Item>>
    decreases n
  {
    if n == 0 then Some([])
    else
      var len := WordAt(b, i);
      var k := u.decode(Slice(b, i + 4, len));
      if k.None? then None
      else
        var vals := DecodeVals(b, i + 8 + len, WordAt(b, i + 4 + len));
        var rest := DecodeItems(b, vals.end, n - 1, u);
        if rest.None? then None else Some([(k.value, vals.value)] + rest.value)
  }

  /** The dictionary that assigning the items one after another makes. */
  function Dictionary(items: seq<Item>): map<Key, seq<int>> {
    if items == [] then map[]
    else
      var n := |items| - 1;
      Dictionary(items[..n])[items[n].0 := items[n].1]
  }

  lemma DictionaryMore(items: seq<Item>, x: Item)
    ensures Dictionary(items + [x]) == Dictionary(items)[x.0 := x.1]
  {
    assert (items + [x])[..|items|] == items;
  }

  function ItemsThen(items: seq<Item>, rest: Option<seq<Item>>): Option<seq<Item>> {
    if rest.None? then None else Some(items + rest.value)
  }

  lemma ItemsMore(items: seq<Item>, x: Item, rest: Option<seq<Item>>)
    ensures ItemsThen(items + [x], rest) == ItemsThen(items, ItemsThen([x], rest))
    ensures ItemsThen([], rest) == rest && ItemsThen(items, Some([])) == Some(items)
  {
    if rest.Some? {
      assert items + [x] + rest.value == items + ([x] + rest.value) && [] + rest.value == rest.value;
    }
    assert items + [] == items;
  }

  method DeserializeHash(b: seq<Byte>, u: Texts) returns (r: Option<map<Key, seq<int>>>)
    ensures var items := DecodeItems(b, 4, WordAt(b, 0), u); r == if items.None? then None else Some(Dictionary(items.value))
  {
    hide WordAt, Slice, DecodeVals, Dictionary, ItemsThen;
    var n, i, j, d := WordAt(b, 0), 4, 0, map[];
    ghost var items: seq<Item> := [];
    ghost var all := DecodeItems(b, 4, n, u);
    ItemsMore([], (0, []), all);
    NoItems();
    while j < n
      invariant j <= n && d == Dictionary(items) && ItemsThen(items, DecodeItems(b, i, n - j, u)) == all
    {
      var len := WordAt(b, i);
      var k := u.decode(Slice(b, i + 4, len));
      if k.None? {
        NoneThen(items);
        return None;
      }
      var vals := ReadVals(b, i + 8 + len, WordAt(b, i + 4 + len));
      var x := (k.value, vals.value);
      OneThen(x, DecodeItems(b, vals.end, n - j - 1, u));
      ItemsMore(items, x, DecodeItems(b, vals.end, n - j - 1, u));
      DictionaryMore(items, x);
      items := items + [x];
      d := d[k.value := vals.value];
      i, j := vals.end, j + 1;
    }
    ItemsMore(items, (0, []), None);
    r := Some(d);
  }

  lemma NoItems()
    ensures Dictionary([]) == map[]
  {
  }

  lemma NoneThen(items: seq<Item>)
    ensures ItemsThen(items, None) == None
  {
  }

  lemma OneThen(x: Item, rest: Option<seq<Item>>)
    ensures ItemsThen([x], rest) == if rest.None? then None else Some([x] + rest.value)
  {
  }

  lemma {:induction false} ItemsBack(b: seq<Byte>, i: nat, items: seq<Item>, u: Texts)
    requires Inverse(u) && EncodeItems(items, u).Some? && At(b, i, EncodeItems(items, u).value)
    ensures DecodeItems(b, i, |items|, u) == Some(items)
    decreases items
  {
    hide At, WordAt, Slice, Word, EncodeVals;
    if items != [] {
      var text, vals := u.encode(items[0].0), items[0].1;
      var vs, rest := EncodeVals(vals).value, EncodeItems(items[1..], u).value;
      ItemParts(b, i, Word(|text|).value, text, Word(|vals|).value, vs, rest);
      WordReads(b, i, |text|);
      WordReads(b, i + 4 + |text|, |vals|);
      SliceIs(b, i + 4, text);
      Restored(u, items[0].0);
      ValsBack(b, i + 8 + |text|, vals);
      ItemsBack(b, i + 8 + |text| + |vs|, items[1..], u);
      ItemsJoin(b, i, items, |text|, u);
    }
  }

  lemma SliceIs(b: seq<Byte>, i: nat, s: seq<Byte>)
    requires At(b, i, s)
    ensures Slice(b, i, |s|) == s
  {
  }

  lemma ItemParts(b: seq<Byte>, i: nat, w: seq<Byte>, text: seq<Byte>, n: seq<Byte>, vs: seq<Byte>, rest: seq<Byte>)
    requires |w| == 4 && |n| == 4 && At(b, i, w + text + (n + vs) + rest)
    ensures At(b, i, w) && At(b, i + 4, text) && At(b, i + 4 + |text|, n)
    ensures At(b, i + 8 + |text|, vs) && At(b, i + 8 + |text| + |vs|, rest)
  {
    AtParts(b, i, w + text + (n + vs), rest);
    AtParts(b, i, w + text, n + vs);
    AtParts(b, i, w, text);
    AtParts(b, i + 4 + |text|, n, vs);
  }

  lemma ItemsJoin(b: seq<Byte>, i: nat, items: seq<Item>, len: nat, u: Texts)
    requires items != [] && WordAt(b, i) == len && u.decode(Slice(b, i + 4, len)) == Some(items[0].0)
    requires WordAt(b, i + 4 + len) == |items[0].1|
    requires var vals := DecodeVals(b, i + 8 + len, |items[0].1|);
             vals.value == items[0].1 && DecodeItems(b, vals.end, |items[1..]|, u) == Some(items[1..])
    ensures DecodeItems(b, i, |items|, u) == Some(items)
  {
    hide WordAt, Slice, DecodeVals;
    assert [items[0]] + items[1..] == items;
  }

  /** A saved dictionary loads as the same dictionary. */
  lemma HashRoundTrip(items: seq<Item>, u: Texts)
    requires Inverse(u) && EncodeHash(items, u).Some?
    ensures var b := EncodeHash(items, u).value; DecodeItems(b, 4, WordAt(b, 0), u) == Some(items)
  {
    var b, w, rest := EncodeHash(items, u).value, Word(|items|).value, EncodeItems(items, u).value;
    assert At(b, 0, w + rest);
    AtParts(b, 0, w, rest);
    WordReads(b, 0, |items|);
    ItemsBack(b, 4, items, u);
  }

  // ---- writing, part after part ----

  lemma ThenAssoc(a: Option<seq<Byte>>, b: Option<seq<Byte>>, c: Option<seq<Byte>>)
    ensures Then(Then(a, b), c) == Then(a, Then(b, c))
  {
    if a.Some? && b.Some? && c.Some? {
      assert a.value + b.value + c.value == a.value + (b.value + c.value);
    }
  }

  method WriteKeys(data: seq<Byte>, keys: seq<Key>, u: Texts) returns (r: Option<seq<Byte>>)
    ensures r == Then(Some(data), EncodeKeys(keys, u))
  {
    r := Some(data);
    var i := 0;
    while i < |keys|
      invariant i <= |keys| && r.Some? && Then(r, EncodeKeys(keys[i..], u)) == Then(Some(data), EncodeKeys(keys, u))
    {
      var text := u.encode(keys[i]);
      var len := Word(|text|);
      assert keys[i..][0] == keys[i] && keys[i..][1..] == keys[i + 1..];
      ThenAssoc(r, Then(len, Some(text)), EncodeKeys(keys[i + 1..], u));
      ThenAssoc(r, len, Some(text));
      if len.None? {
        return None;
      }
      r := Some(r.value + len.value + text);
      i := i + 1;
    }
    assert keys[i..] == [];
    NothingMore(r);
  }

  method WriteVals(data: seq<Byte>, vals: seq<int>) returns (r: Option<seq<Byte>>)
    ensures r == Then(Some(data), EncodeVals(vals))
  {
    r := Some(data);
    var i := 0;
    while i < |vals|
      invariant i <= |vals| && r.Some? && Then(r, EncodeVals(vals[i..])) == Then(Some(data), EncodeVals(vals))
    {
      var w := Word(vals[i]);
      assert vals[i..][0] == vals[i] && vals[i..][1..] == vals[i + 1..];
      ThenAssoc(r, w, EncodeVals(vals[i + 1..]));
      if w.None? {
        return None;
      }
      r := Some(r.value + w.value);
      i := i + 1;
    }
    assert vals[i..] == [];
    NothingMore(r);
  }

  lemma NothingMore(r: Option<seq<Byte>>)
    requires r.Some?
    ensures Then(r, Some([])) == r
  {
    assert r.value + [] == r.value;
  }

  /** The parts before a node's children. */
  function Header(order: nat, leaf: bool, keys: seq<Key>, n: nat, u: Texts): Option<seq<Byte>> {
    Then(Then(Then(Then(Word(order), Some([if leaf then 1 else 0])), Word(|keys|)), EncodeKeys(keys, u)), Word(n))
  }

  lemma HeaderFirst(t: Tree<nat>, u: Texts)
    ensures Encode(t, u) == if t.Leaf? then Then(Header(t.id, true, t.keys, |t.vals|, u), EncodeVals(t.vals))
                            else Then(Header(t.id, false, t.keys, |t.kids|, u), EncodeKids(t.kids, u))
  {
    hide Word, EncodeKeys, EncodeVals, EncodeKids, Then;
    var n := if t.Leaf? then |t.vals| else |t.kids|;
    var children := if t.Leaf? then EncodeVals(t.vals) else EncodeKids(t.kids, u);
    Regroup(Word(t.id), Some([if t.Leaf? then 1 else 0]), Word(|t.keys|), EncodeKeys(t.keys, u), Word(n), children);
  }

  lemma Regroup(a: Option<seq<Byte>>, b: Option<seq<Byte>>, c: Option<seq<Byte>>, d: Option<seq<Byte>>, e: Option<seq<Byte>>, f: Option<seq<Byte>>)
    ensures Then(a, Then(b, Then(c, Then(d, Then(e, f))))) == Then(Then(Then(Then(Then(a, b), c), d), e), f)
  {
    hide Then;
    ThenAssoc(a, b, Then(c, Then(d, Then(e, f))));
    ThenAssoc(Then(a, b), c, Then(d, Then(e, f)));
    ThenAssoc(Then(Then(a, b), c), d, Then(e, f));
    ThenAssoc(Then(Then(Then(a, b), c), d), e, f);
  }

  method WriteHeader(order: nat, leaf: bool, keys: seq<Key>, n: nat, u: Texts) returns (r: Option<seq<Byte>>)
    ensures r == Header(order, leaf, keys, n, u)
  {
    hide EncodeKeys;
    var w, count, m := Word(order), Word(|keys|), Word(n);
    if w.None? || count.None? {
      return None;
    }
    r := WriteKeys(w.value + [if leaf then 1 else 0] + count.value, keys, u);
    if r.None? || m.None? {
      return None;
    }
    r := Some(r.value + m.value);
  }

  method SerializeHash(items: seq<Item>, u: Texts) returns (r: Option<seq<Byte>>)
    ensures r == EncodeHash(items, u)
  {
    hide Word, EncodeVals;
    r := Word(|items|);
    var i := 0;
    while i < |items| && r.Some?
      invariant i <= |items| && Then(r, EncodeItems(items[i..], u)) == EncodeHash(items, u)
    {
      var text, vals, rest := u.encode(items[i].0), items[i].1, EncodeItems(items[i + 1..], u);
      var len, n := Word(|text|), Word(|vals|);
      assert items[i..][0] == items[i] && items[i..][1..] == items[i + 1..];
      ItemAfter(r, len, Some(text), n, EncodeVals(vals), rest);
      if len.None? || n.None? {
        return None;
      }
      r := WriteVals(r.value + len.value + text + n.value, vals);
      i := i + 1;
    }
    if r.Some? {
      assert items[i..] == [];
      NothingMore(r);
    }
  }

  lemma ItemAfter(r: Option<seq<Byte>>, len: Option<seq<Byte>>, text: Option<seq<Byte>>, n: Option<seq<Byte>>, vals: Option<seq<Byte>>, rest: Option<seq<Byte>>)
    ensures Then(r, Then(Then(Then(len, text), Then(n, vals)), rest)) == Then(Then(Then(Then(Then(r, len), text), n), vals), rest)
  {
    hide Then;
    ThenAssoc(r, Then(Then(len, text), Then(n, vals)), rest);
    ThenAssoc(r, Then(len, text), Then(n, vals));
    ThenAssoc(r, len, text);
    ThenAssoc(Then(Then(r, len), text), n, vals);
  }

  // ---- reading, part after part ----

  /** What was read before, and then what is left to read. */
  function Prefixed<T>(before: seq<T>, rest: Option<Read<seq<T>>>): Option<Read<seq<T>>> {
    if rest.None? then None else Some(Read(before + rest.value.value, rest.value.end))
  }

  method ReadKeys(b: seq<Byte>, offset: nat, n: nat, u: Texts) returns (r: Option<Read<seq<Key>>>)
    ensures r == DecodeKeys(b, offset, n, u)
  {
    hide WordAt, Slice;
    var keys, i, j := [], offset, 0;
    AllRead(keys, DecodeKeys(b, i, n, u));
    while j < n
      invariant j <= n && Prefixed(keys, DecodeKeys(b, i, n - j, u)) == DecodeKeys(b, offset, n, u)
    {
      var len := WordAt(b, i);
      var key := u.decode(Slice(b, i + 4, len));
      if key.None? {
        return None;
      }
      OneMore(keys, key.value, DecodeKeys(b, i + 4 + len, n - j - 1, u));
      keys, i, j := keys + [key.value], i + 4 + len, j + 1;
    }
    assert keys + [] == keys;
    r := Some(Read(keys, i));
  }

  method ReadVals(b: seq<Byte>, offset: nat, n: nat) returns (r: Read<seq<int>>)
    ensures r == DecodeVals(b, offset, n)
  {
    hide WordAt;
    var vals, i, j := [], offset, 0;
    AllRead(vals, Some(DecodeVals(b, i, n)));
    while j < n
      invariant j <= n && Prefixed(vals, Some(DecodeVals(b, i, n - j))) == Some(DecodeVals(b, offset, n))
    {
      OneMore(vals, WordAt(b, i), Some(DecodeVals(b, i + 4, n - j - 1)));
      vals, i, j := vals + [WordAt(b, i)], i + 4, j + 1;
    }
    assert vals + [] == vals;
    r := Read(vals, i);
  }

  lemma AllRead<T>(before: seq<T>, rest: Option<Read<seq<T>>>)
    requires before == []
    ensures Prefixed(before, rest) == rest
  {
    if rest.Some? {
      assert before + rest.value.value == rest.value.value;
    }
  }

  lemma OneMore<T>(before: seq<T>, x: T, rest: Option<Read<seq<T>>>)
    ensures Prefixed(before + [x], rest) == Prefixed(before, Prefixed([x], rest))
  {
    if rest.Some? {
      assert before + [x] + rest.value.value == before + ([x] + rest.value.value);
    }
  }
}
