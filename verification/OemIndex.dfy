/** The hash index over the OEM profile tables: fixed buckets, each a chain of bounded length. */
module OemIndex {
  import opened Bytes

  const INVALID: int := -1
  const HASH_CHAIN_SZ: nat := 5
  const CHAR_CHAIN_SZ: nat := 8

  /** A name, without its terminator; characters are unsigned. */
  type Name = seq<bv8>

  // ----- The hash function

  /** Moves the top four bits, if any is set, into the low half and clears them. */
  function Fold(v: bv32): bv32 {
    var top := v & 0xf000_0000;
    if top != 0 then v ^ (top >> 24) ^ top else v
  }

  function Mix(val: bv32, c: bv8): bv32 {
    Fold((val << 4) + c as bv32)
  }

  function HashValue(key: Name): bv32 {
    if key == [] then 0 else Mix(HashValue(key[..|key| - 1]), key[|key| - 1])
  }

  function Hash(key: Name, buckets: nat): (h: nat)
    requires buckets > 0
    ensures h < buckets
  {
    Bucket(HashValue(key) as int, buckets)
  }

  function Bucket(value: nat, buckets: nat): (b: nat)
    requires buckets > 0
    ensures b < buckets
  {
    value % buckets
  }

  /** The bucket is what is left of a value when the number of buckets is taken off it so many times. */
  lemma BucketIsRemainder(value: nat, buckets: nat) returns (q: nat)
    requires buckets > 0
    ensures value == buckets * q + Bucket(value, buckets)
  {
    q := value / buckets;
  }

  /** The accumulator is always left with its top four bits clear, so that the next shift loses nothing. */
  lemma HashStaysSmall(key: Name)
    ensures HashValue(key) & 0xf000_0000 == 0
  {
    if key != [] {
      MixClearsTop(HashValue(key[..|key| - 1]), key[|key| - 1]);
    }
  }

  /** Folding: the top four bits are taken off and mixed in four bits from the bottom. */
  lemma FoldMeans(v: bv32)
    ensures Fold(v) == (v & 0x0fff_ffff) ^ ((v >> 28) << 4)
  {}

  /** One character: sixteen times the value plus the character, folded where that needs the top four bits. */
  lemma MixMeans(v: bv32, c: bv8, sum: bv32)
    requires sum == 16 * v + c as bv32
    ensures sum < 0x1000_0000 ==> Mix(v, c) == sum
    ensures Mix(v, c) == (sum & 0x0fff_ffff) ^ ((sum >> 28) << 4)
  {
    FoldMeans(sum);
  }

  /** The characters are mixed in from the first to the last, starting from zero. */
  lemma HashMixesInOrder(front: Name, last: bv8)
    ensures HashValue([]) == 0 && HashValue(front + [last]) == Mix(HashValue(front), last)
  {
    assert (front + [last])[..|front|] == front;
  }

  lemma FoldClearsTop(v: bv32)
    ensures Fold(v) & 0xf000_0000 == 0
  {}

  method FoldTop(v: bv32) returns (r: bv32)
    ensures r == Fold(v)
  {
    r := v;
    var tmp := r & 0xf000_0000;
    if tmp != 0 {
      r := r ^ (tmp >> 24);
      r := r ^ tmp;
    }
  }

  lemma MixClearsTop(val: bv32, c: bv8)
    ensures Mix(val, c) & 0xf000_0000 == 0
  {
    FoldClearsTop((val << 4) + c as bv32);
  }

  method MixIn(val: bv32, c: bv8) returns (r: bv32)
    ensures r == Mix(val, c)
  {
    r := FoldTop((val << 4) + c as bv32);
  }

  method Accumulate(key: Name) returns (val: bv32)
    ensures val == HashValue(key)
  {
    val := 0;
    var i := 0;
    while i < |key|
      invariant 0 <= i <= |key|
      invariant val == HashValue(key[..i])
    {
      assert key[..i + 1][..i] == key[..i];
      val := MixIn(val, key[i]);
      i := i + 1;
    }
    assert key[..i] == key;
  }

  method HashFunction(key: Option<Name>, buckets: nat) returns (h: int)
    requires buckets > 0
    ensures h == if key.None? then INVALID else Hash(key.value, buckets)
  {
    if key.None? {
      return INVALID;
    }
    var val := Accumulate(key.value);
    h := (val as int) % buckets;
  }

  // ----- Chains

  /** What is filed under a name: group index, and characteristic index or INVALID. */
  datatype Item = Item(name: Name, grp: int, chr: int)

  datatype Slot = Slot(name: Option<Name>, grp: int, chr: int)

  function Filed(item: Item): Slot {
    Slot(Some(item.name), item.grp, item.chr)
  }

  function Insert(chains: seq<seq<Item>>, key: nat, item: Item, cap: nat): seq<seq<Item>>
    requires key < |chains|
  {
    if |chains[key]| < cap then chains[key := chains[key] + [item]] else chains
  }

  /** All chains after filing the items in order. */
  function Build(items: seq<Item>, buckets: nat, cap: nat): (chains: seq<seq<Item>>)
    requires buckets > 0
    ensures |chains| == buckets
  {
    if items == [] then seq(buckets, _ => [])
    else
      var last := items[|items| - 1];
      Insert(Build(items[..|items| - 1], buckets, cap), Hash(last.name, buckets), last, cap)
  }

  lemma BuildSnoc(items: seq<Item>, item: Item, buckets: nat, cap: nat)
    requires buckets > 0
    ensures Build(items + [item], buckets, cap)
            == Insert(Build(items, buckets, cap), Hash(item.name, buckets), item, cap)
  {
    assert (items + [item])[..|items|] == items;
  }

  /** Items filed before position `n` in bucket `b`, dropped or not. */
  function Arrivals(items: seq<Item>, b: nat, buckets: nat, n: nat): (count: nat)
    requires buckets > 0 && n <= |items|
    ensures count <= n
  {
    if n == 0 then 0
    else Arrivals(items, b, buckets, n - 1) + if Hash(items[n - 1].name, buckets) == b then 1 else 0
  }

  /** First item of that name in a chain. */
  function Search(chain: seq<Item>, name: Name): Option<Item> {
    if chain == [] then None
    else if chain[0].name == name then Some(chain[0])
    else Search(chain[1..], name)
  }

  /** First position of that name in the tables, or their length. */
  function FirstOf(items: seq<Item>, name: Name): (i: nat)
    ensures i <= |items|
    ensures i < |items| ==> items[i].name == name
    ensures forall j :: 0 <= j < i ==> items[j].name != name
  {
    if items == [] then 0
    else
      var i := FirstOf(items[..|items| - 1], name);
      if i < |items| - 1 then i
      else if items[|items| - 1].name == name then |items| - 1
      else |items|
  }

  /** What a lookup should give: the first item of that name, if its bucket had room when it was filed. */
  function Answer(items: seq<Item>, name: Name, buckets: nat, cap: nat): Option<Item>
    requires buckets > 0
  {
    var i := FirstOf(items, name);
    if i < |items| && Arrivals(items, Hash(name, buckets), buckets, i) < cap then Some(items[i]) else None
  }

  lemma {:induction false} SearchAppend(chain: seq<Item>, item: Item, name: Name)
    ensures Search(chain + [item], name) ==
            if Search(chain, name).Some? then Search(chain, name)
            else if item.name == name then Some(item) else None
  {
    if chain == [] {
      assert chain + [item] == [item];
    } else {
      assert (chain + [item])[1..] == chain[1..] + [item];
      SearchAppend(chain[1..], item, name);
    }
  }

  /** A chain holds as many items as arrived, up to its capacity. */
  lemma {:induction false} ChainLength(items: seq<Item>, buckets: nat, cap: nat, b: nat)
    requires 0 < buckets && b < buckets
    ensures |Build(items, buckets, cap)[b]| == Min(cap, Arrivals(items, b, buckets, |items|))
  {
    if items != [] {
      var front := items[..|items| - 1];
      ChainLength(front, buckets, cap, b);
      ArrivalsOfPrefix(items, b, buckets, |front|);
    }
  }

  lemma {:induction false} ArrivalsOfPrefix(items: seq<Item>, b: nat, buckets: nat, n: nat)
    requires buckets > 0 && items != [] && n < |items|
    ensures Arrivals(items[..|items| - 1], b, buckets, n) == Arrivals(items, b, buckets, n)
  {
    if n > 0 {
      ArrivalsOfPrefix(items, b, buckets, n - 1);
    }
  }

  lemma {:induction false} ArrivalsGrow(items: seq<Item>, b: nat, buckets: nat, m: nat, n: nat)
    requires buckets > 0 && m <= n <= |items|
    ensures Arrivals(items, b, buckets, m) <= Arrivals(items, b, buckets, n)
  {
    if m < n {
      ArrivalsGrow(items, b, buckets, m, n - 1);
    }
  }

  /** Filing an item under another bucket, or another name, does not change what a name looks up to. */
  lemma OtherItem(items: seq<Item>, last: Item, name: Name, buckets: nat, cap: nat)
    requires buckets > 0 && last.name != name
    ensures Answer(items + [last], name, buckets, cap) == Answer(items, name, buckets, cap)
    ensures var b := Hash(name, buckets);
            Search(Build(items + [last], buckets, cap)[b], name) == Search(Build(items, buckets, cap)[b], name)
  {
    var more, b := items + [last], Hash(name, buckets);
    assert more[..|items|] == items;
    ArrivalsOfPrefix(more, b, buckets, FirstOf(items, name));
    SearchAppend(Build(items, buckets, cap)[b], last, name);
  }

  /** Filing an item of that name settles the lookup if nothing of that name came before. */
  lemma SameItem(items: seq<Item>, last: Item, buckets: nat, cap: nat)
    requires buckets > 0
    requires var b := Hash(last.name, buckets);
             Search(Build(items, buckets, cap)[b], last.name) == Answer(items, last.name, buckets, cap)
    ensures var b := Hash(last.name, buckets);
            Search(Build(items + [last], buckets, cap)[b], last.name) == Answer(items + [last], last.name, buckets, cap)
  {
    var name := last.name;
    var more, b := items + [last], Hash(name, buckets);
    assert more[..|items|] == items;
    var i := FirstOf(items, name);
    SearchAppend(Build(items, buckets, cap)[b], last, name);
    ChainLength(items, buckets, cap, b);
    ArrivalsOfPrefix(more, b, buckets, i);
    if i < |items| {
      NameArrives(items, name, buckets, i, |items|);
    }
  }

  /**
   * Looking a name up in the finished index gives the first table entry of that name if fewer than a full chain of
   * entries came before it in its bucket, and nothing otherwise, for any tables and any distribution of the hash.
   */
  lemma {:induction false} LookupIsExact(items: seq<Item>, name: Name, buckets: nat, cap: nat)
    requires buckets > 0
    ensures Search(Build(items, buckets, cap)[Hash(name, buckets)], name) == Answer(items, name, buckets, cap)
  {
    if items != [] {
      var front, last := items[..|items| - 1], items[|items| - 1];
      assert items == front + [last];
      LookupIsExact(front, name, buckets, cap);
      if last.name == name {
        SameItem(front, last, buckets, cap);
      } else {
        OtherItem(front, last, name, buckets, cap);
      }
    }
  }

  /** An entry of that name counts among the arrivals of its bucket. */
  lemma {:induction false} NameArrives(items: seq<Item>, name: Name, buckets: nat, i: nat, n: nat)
    requires buckets > 0 && i < n <= |items| && items[i].name == name
    ensures Arrivals(items, Hash(name, buckets), buckets, i) < Arrivals(items, Hash(name, buckets), buckets, n)
  {
    if i + 1 < n {
      NameArrives(items, name, buckets, i, n - 1);
    }
  }

  /** With no more entries than a chain holds, nothing is ever dropped, so every name in the tables is found. */
  lemma FewEntriesAreAllFound(items: seq<Item>, name: Name, buckets: nat, cap: nat)
    requires buckets > 0 && |items| <= cap
    ensures Answer(items, name, buckets, cap) ==
            if FirstOf(items, name) < |items| then Some(items[FirstOf(items, name)]) else None
  {}

  // ----- The tables and their index

  datatype Profile = Profile(name: Name, chars: seq<Name>)

  function ProfileItems(data: seq<Profile>): seq<Item> {
    seq(|data|, i requires 0 <= i < |data| => Item(data[i].name, i, INVALID))
  }

  function CharItemsOf(chars: seq<Name>, grp: nat): seq<Item> {
    seq(|chars|, j requires 0 <= j < |chars| => Item(chars[j], grp, j))
  }

  /** Characteristics of the first `n` profiles, in table order. */
  function CharItems(data: seq<Profile>, n: nat): seq<Item>
    requires n <= |data|
  {
    if n == 0 then [] else CharItems(data, n - 1) + CharItemsOf(data[n - 1].chars, n - 1)
  }

  /** How many characteristics the first `n` profiles have. */
  function CharCount(data: seq<Profile>, n: nat): nat
    requires n <= |data|
  {
    if n == 0 then 0 else CharCount(data, n - 1) + |data[n - 1].chars|
  }

  /** The profiles are filed in table order, without a characteristic. */
  lemma ProfileItemsPointBack(data: seq<Profile>)
    ensures |ProfileItems(data)| == |data|
    ensures forall i :: 0 <= i < |data| ==> ProfileItems(data)[i] == Item(data[i].name, i, -1)
  {}

  /** Every characteristic is filed, in table order, and nothing else is. */
  lemma {:induction false} CharItemsCoverTables(data: seq<Profile>, n: nat, p: nat, j: nat)
    requires p < n <= |data| && j < |data[p].chars|
    ensures |CharItems(data, n)| == CharCount(data, n) && CharCount(data, p) + j < CharCount(data, n)
    ensures CharItems(data, n)[CharCount(data, p) + j] == Item(data[p].chars[j], p, j)
  {
    CharItemsCounted(data, n);
    CharItemsCounted(data, n - 1);
    if p < n - 1 {
      CharItemsCoverTables(data, n - 1, p, j);
    }
  }

  lemma {:induction false} CharItemsCounted(data: seq<Profile>, n: nat)
    requires n <= |data|
    ensures |CharItems(data, n)| == CharCount(data, n)
  {
    if n > 0 {
      CharItemsCounted(data, n - 1);
    }
  }

  /** Every characteristic item points back into the tables at its own name. */
  lemma {:induction false} CharItemsPointBack(data: seq<Profile>, n: nat, k: nat)
    requires n <= |data| && k < |CharItems(data, n)|
    ensures var item := CharItems(data, n)[k];
            && 0 <= item.grp < n && 0 <= item.chr < |data[item.grp].chars|
            && data[item.grp].chars[item.chr] == item.name
  {
    if k < |CharItems(data, n - 1)| {
      CharItemsPointBack(data, n - 1, k);
    }
  }

  /** With distinct names, position `k` is the first of its name. */
  lemma DistinctIsFirst(items: seq<Item>, k: nat)
    requires k < |items| && DistinctNames(items)
    ensures FirstOf(items, items[k].name) == k
  {
    var f := FirstOf(items, items[k].name);
    assert f <= k;
  }

  ghost predicate DistinctNames(items: seq<Item>) {
    forall i, j :: 0 <= i < j < |items| ==> items[i].name != items[j].name
  }

  /** Every insertion found room. */
  ghost predicate NoneDropped(items: seq<Item>, buckets: nat, cap: nat)
    requires buckets > 0
  {
    forall k :: 0 <= k < |items| ==> Arrivals(items, Hash(items[k].name, buckets), buckets, k) < cap
  }

  /** With distinct names and every insertion done, an item is what its own name looks up to, and no other name's. */
  lemma NameGivesItsItem(items: seq<Item>, name: Name, buckets: nat, cap: nat, k: nat)
    requires buckets > 0 && k < |items| && DistinctNames(items) && NoneDropped(items, buckets, cap)
    ensures Answer(items, name, buckets, cap) == Some(items[k]) <==> items[k].name == name
    ensures Answer(items, name, buckets, cap).Some? ==> Answer(items, name, buckets, cap).value in items
  {
    DistinctIsFirst(items, k);
  }

  class ChainTable {
    const buckets: nat
    const cap: nat
    const slots: array2<Slot>
    ghost var chains: seq<seq<Item>>

    /** Each chain fills its row from the front; the rest of the row is empty. */
    ghost predicate Valid()
      reads this, slots
    {
      && 0 < buckets == slots.Length0 == |chains| && cap == slots.Length1
      && forall b :: 0 <= b < buckets ==> RowHolds(b)
    }

    ghost predicate RowHolds(b: nat)
      requires b < slots.Length0 && b < |chains|
      reads this, slots
    {
      && |chains[b]| <= slots.Length1
      && (forall i :: 0 <= i < |chains[b]| ==> slots[b, i] == Filed(chains[b][i]))
      && forall i :: |chains[b]| <= i < slots.Length1 ==> slots[b, i].name.None?
    }

    constructor (buckets: nat, cap: nat)
      requires buckets > 0
      ensures Valid() && this.buckets == buckets && this.cap == cap
      ensures chains == Build([], buckets, cap) && fresh(slots)
    {
      this.buckets, this.cap := buckets, cap;
      slots := new Slot[buckets, cap]((_, _) => Slot(None, INVALID, INVALID));
      chains := seq(buckets, _ => []);
    }

    /** Files an item in the first empty slot of its row, if there is one; without group or key it does nothing. */
    method InsertToHashTable(key: int, item: Item)
      requires Valid() && (key == INVALID || 0 <= key < buckets)
      modifies this`chains, slots
      ensures Valid()
      ensures chains ==
              if item.grp == INVALID || key == INVALID then old(chains) else Insert(old(chains), key, item, cap)
    {
      if item.grp == INVALID || key == INVALID {
        return;
      }
      var index := INVALID;
      var i := 0;
      while i < cap
        invariant 0 <= i <= cap && index == INVALID && i <= |chains[key]|
        invariant RowHolds(key)
      {
        if slots[key, i].name.None? {
          index := i;
          break;
        }
        i := i + 1;
      }
      if index != INVALID {
        assert index == |chains[key]|;
        slots[key, index] := Filed(item);
        chains := chains[key := chains[key] + [item]];
        forall b | 0 <= b < buckets
          ensures RowHolds(b)
        {
          assert b != key ==> old(RowHolds(b));
        }
      }
    }

    /** Files an item under its name, behind the items filed before it. */
    method FileItem(item: Item, ghost before: seq<Item>)
      requires Valid() && chains == Build(before, buckets, cap) && item.grp != INVALID
      modifies this`chains, slots
      ensures Valid() && chains == Build(before + [item], buckets, cap)
    {
      BuildSnoc(before, item, buckets, cap);
      var key := HashFunction(Some(item.name), buckets);
      InsertToHashTable(key, item);
    }

    /** Files the characteristics of one profile behind the items filed before them. */
    method FileChars(chars: seq<Name>, grp: nat, ghost before: seq<Item>)
      requires Valid() && chains == Build(before, buckets, cap)
      modifies this`chains, slots
      ensures Valid() && chains == Build(before + CharItemsOf(chars, grp), buckets, cap)
    {
      ghost var items := CharItemsOf(chars, grp);
      assert before + items[..0] == before;
      for j := 0 to |chars|
        invariant Valid() && chains == Build(before + items[..j], buckets, cap)
      {
        assert before + items[..j + 1] == before + items[..j] + [items[j]];
        FileItem(Item(chars[j], grp, j), before + items[..j]);
      }
      assert items[..|chars|] == items;
    }

    /** Slot of a name in its row, or INVALID. */
    method FindSlot(key: nat, name: Name) returns (index: int)
      requires Valid() && key < buckets
      ensures index == INVALID <==> Search(chains[key], name).None?
      ensures index != INVALID ==>
                0 <= index < cap && slots[key, index] == Filed(Search(chains[key], name).value)
    {
      ghost var chain := chains[key];
      assert RowHolds(key);
      index := INVALID;
      for i := 0 to cap
        invariant index == INVALID
        invariant Search(chain, name) == if i < |chain| then Search(chain[i..], name) else Search([], name)
      {
        if slots[key, i].name.Some? {
          if slots[key, i].name.value == name {
            index := i;
            break;
          }
        }
      }
    }
  }

  class Index {
    const data: seq<Profile>
    const hashTable: ChainTable
    const hashTableChar: ChainTable

    ghost predicate Valid()
      reads this, hashTable, hashTable.slots, hashTableChar, hashTableChar.slots
    {
      && hashTable.Valid() && hashTable.cap == HASH_CHAIN_SZ
      && hashTableChar.Valid() && hashTableChar.cap == CHAR_CHAIN_SZ
      && hashTable != hashTableChar && hashTable.slots != hashTableChar.slots
    }

    /** Both indexes have been filled from the tables. */
    ghost predicate Indexed()
      requires Valid()
      reads this, hashTable, hashTable.slots, hashTableChar, hashTableChar.slots
    {
      && hashTable.chains == Build(ProfileItems(data), hashTable.buckets, HASH_CHAIN_SZ)
      && hashTableChar.chains == Build(CharItems(data, |data|), hashTableChar.buckets, CHAR_CHAIN_SZ)
    }

    /** Empty indexes over the tables: as many profile buckets as profiles, as many others as characteristics. */
    constructor (data: seq<Profile>, charBuckets: nat)
      requires 0 < |data| && 0 < charBuckets
      ensures Valid() && this.data == data && hashTable.buckets == |data| && hashTableChar.buckets == charBuckets
      ensures hashTable.chains == Build([], |data|, HASH_CHAIN_SZ)
      ensures hashTableChar.chains == Build([], charBuckets, CHAR_CHAIN_SZ)
      ensures fresh(hashTable) && fresh(hashTable.slots) && fresh(hashTableChar) && fresh(hashTableChar.slots)
    {
      this.data := data;
      hashTable := new ChainTable(|data|, HASH_CHAIN_SZ);
      hashTableChar := new ChainTable(charBuckets, CHAR_CHAIN_SZ);
    }

    method CreateHashTableForProfiles()
      requires Valid() && hashTable.chains == Build([], hashTable.buckets, HASH_CHAIN_SZ)
      modifies hashTable`chains, hashTable.slots
      ensures Valid()
      ensures hashTable.chains == Build(ProfileItems(data), hashTable.buckets, HASH_CHAIN_SZ)
    {
      ghost var items := ProfileItems(data);
      for i := 0 to |data|
        invariant Valid()
        invariant hashTable.chains == Build(items[..i], hashTable.buckets, HASH_CHAIN_SZ)
      {
        assert items[..i + 1] == items[..i] + [items[i]];
        hashTable.FileItem(Item(data[i].name, i, INVALID), items[..i]);
      }
      assert items[..|data|] == items;
    }

    method CreateHashTableForChar()
      requires Valid() && hashTableChar.chains == Build([], hashTableChar.buckets, CHAR_CHAIN_SZ)
      modifies hashTableChar`chains, hashTableChar.slots
      ensures Valid()
      ensures hashTableChar.chains == Build(CharItems(data, |data|), hashTableChar.buckets, CHAR_CHAIN_SZ)
    {
      for i := 0 to |data|
        invariant Valid()
        invariant hashTableChar.chains == Build(CharItems(data, i), hashTableChar.buckets, CHAR_CHAIN_SZ)
      {
        hashTableChar.FileChars(data[i].chars, i, CharItems(data, i));
      }
    }

    /** Index of the profile of that name, or INVALID. */
    method GetProfileIdx(profile: Option<Name>) returns (idx: int)
      requires Valid() && Indexed()
      ensures profile.None? ==> idx == INVALID
      ensures profile.Some? ==>
                var a := Answer(ProfileItems(data), profile.value, hashTable.buckets, HASH_CHAIN_SZ);
                if a.Some? then idx == a.value.grp && 0 <= idx < |data| && data[idx].name == profile.value
                else idx == INVALID
      ensures profile.Some? && DistinctNames(ProfileItems(data)) &&
              NoneDropped(ProfileItems(data), hashTable.buckets, HASH_CHAIN_SZ) ==>
                (idx == INVALID || 0 <= idx < |data|) &&
                forall k :: 0 <= k < |data| ==> (idx == k <==> data[k].name == profile.value)
    {
      ghost var items := ProfileItems(data);
      if profile.Some? && DistinctNames(items) && NoneDropped(items, hashTable.buckets, HASH_CHAIN_SZ) {
        forall k | 0 <= k < |data|
          ensures Answer(items, profile.value, hashTable.buckets, HASH_CHAIN_SZ) == Some(items[k])
                  <==> data[k].name == profile.value
        {
          NameGivesItsItem(items, profile.value, hashTable.buckets, HASH_CHAIN_SZ, k);
        }
      }
      var hashVal := HashFunction(profile, hashTable.buckets);
      if hashVal < 0 {
        return INVALID;
      }
      var index := hashTable.FindSlot(hashVal, profile.value);
      LookupIsExact(ProfileItems(data), profile.value, hashTable.buckets, HASH_CHAIN_SZ);
      if index == INVALID {
        return INVALID;
      }
      idx := hashTable.slots[hashVal, index].grp;
      if idx == INVALID || idx >= |data| {
        return INVALID;
      }
    }

    /** Profile and position of the characteristic of that name. */
    method FindCharacteristic(name: Option<Name>) returns (found: bool, grp: int, chr: int)
      requires Valid() && Indexed()
      ensures name.None? ==> !found
      ensures name.Some? ==>
                var a := Answer(CharItems(data, |data|), name.value, hashTableChar.buckets, CHAR_CHAIN_SZ);
                && (found <==> a.Some?)
                && (found ==>
                      && grp == a.value.grp && chr == a.value.chr
                      && 0 <= grp < |data| && 0 <= chr < |data[grp].chars| && data[grp].chars[chr] == name.value)
    {
      grp, chr := INVALID, INVALID;
      var hashVal := HashFunction(name, hashTableChar.buckets);
      if hashVal < 0 {
        return false, grp, chr;
      }
      var index := hashTableChar.FindSlot(hashVal, name.value);
      ghost var items := CharItems(data, |data|);
      LookupIsExact(items, name.value, hashTableChar.buckets, CHAR_CHAIN_SZ);
      if index == INVALID {
        return false, grp, chr;
      }
      CharItemsPointBack(data, |data|, FirstOf(items, name.value));
      grp, chr := hashTableChar.slots[hashVal, index].grp, hashTableChar.slots[hashVal, index].chr;
      found := grp < |data|;
    }
  }
}
