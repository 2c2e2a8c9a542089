/**
 * `buildFrequencyMap` of util.h on a string: count every character into the
 * hash map, then record the pseudo-EOF with count 1.
 */
module Frequency {
  import opened Common
  import opened Hashing
  import opened Chains
  import opened HashMaps

  /** One turn of the counting loop: a new character is put with 1, a known one with its count plus one. */
  function CountChar(t: Table, c: int): Table
    requires |t| == BucketCount
  {
    match Lookup(t, c)
      case None => Put(t, c, 1)
      case Some(n) => Put(t, c, n + 1)
  }

  /**
   * CountChar after a countdown that only delays its unfolding, so that
   * proofs by induction over the text do not unfold the hash-map functions of
   * every turn (DeferredCountIs unfolds it where it is wanted). It is an aid to
   * the verifier only and models nothing of the source.
   */
  function DeferredCount(t: Table, c: int, countdown: nat): (r: Table)
    requires |t| == BucketCount
    ensures |r| == BucketCount
  {
    if countdown == 0 then CountChar(t, c) else DeferredCount(t, c, countdown - 1)
  }

  lemma DeferredCountIs(t: Table, c: int)
    requires |t| == BucketCount
    ensures DeferredCount(t, c, 1) == CountChar(t, c)
  {
    assert DeferredCount(t, c, 0) == CountChar(t, c);
  }

  /** The counting loop over a whole text, first character first. */
  function CountAll(t: Table, s: seq<Char>): (r: Table)
    requires |t| == BucketCount
    ensures |r| == BucketCount
    decreases |s|
  {
    if |s| == 0 then t else DeferredCount(CountAll(t, s[..|s| - 1]), s[|s| - 1], 1)
  }

  /** The map after `buildFrequencyMap(s, false, map)`. */
  function FrequencyTable(t: Table, s: seq<Char>): (r: Table)
    requires |t| == BucketCount
    ensures |r| == BucketCount
  {
    Put(CountAll(t, s), PseudoEof, 1)
  }

  /** What a key held before the count, as a number: absent counts as 0. */
  function Before(t: Table, key: int): int
    requires |t| == BucketCount
  {
    match Lookup(t, key)
      case None => 0
      case Some(n) => n
  }

  /** How often `key` occurs in the text. */
  function Occurrences(s: seq<Char>, key: int): (n: nat)
    ensures n <= |s|
    decreases |s|
  {
    if |s| == 0 then 0
    else Occurrences(s[..|s| - 1], key) + (if s[|s| - 1] == key then 1 else 0)
  }

  /** Occurrences agrees with the multiset of the text, and is zero exactly for keys not in it. */
  lemma {:induction false} OccurrencesCount(s: seq<Char>, key: int)
    ensures Occurrences(s, key) > 0 <==> key in s
    ensures -128 <= key < 128 ==> Occurrences(s, key) == multiset(s)[key as Char]
    decreases |s|
  {
    if |s| > 0 {
      var init := s[..|s| - 1];
      OccurrencesCount(init, key);
      assert s == init + [s[|s| - 1]];
      assert key in s <==> key in init || s[|s| - 1] == key;
    }
  }

  /**
   * Counting a text adds each character's number of occurrences to its
   * count, starting from 0 for a new key, and leaves every other key alone.
   */
  lemma {:induction false} CountAllCounts(t: Table, s: seq<Char>, key: int)
    requires |t| == BucketCount
    ensures Occurrences(s, key) == 0 ==> Lookup(CountAll(t, s), key) == Lookup(t, key)
    ensures Occurrences(s, key) > 0 ==> Lookup(CountAll(t, s), key) == Some(Before(t, key) + Occurrences(s, key))
    decreases |s|
  {
    if |s| > 0 {
      var init, last := s[..|s| - 1], s[|s| - 1];
      CountAllCounts(t, init, key);
      var u := CountAll(t, init);
      DeferredCountIs(u, last);
      CountCharLookup(u, last, key);
      var earlier := Occurrences(init, key);
      assert Occurrences(s, key) == earlier + (if last == key then 1 else 0);
      if last == key {
        var b := Before(t, key) + earlier;
        assert Before(u, key) == b;
        assert Lookup(CountAll(t, s), key) == Some(b + 1);
      } else {
        assert Lookup(CountAll(t, s), key) == Lookup(u, key);
      }
    }
  }

  /** Counting keeps the map's invariant. */
  lemma {:induction false} CountAllKeeps(t: Table, s: seq<Char>)
    requires WellFormed(t)
    ensures WellFormed(CountAll(t, s))
    decreases |s|
  {
    if |s| > 0 {
      CountAllKeeps(t, s[..|s| - 1]);
      CountCharKeeps(CountAll(t, s[..|s| - 1]), s[|s| - 1]);
      DeferredCountIs(CountAll(t, s[..|s| - 1]), s[|s| - 1]);
    }
  }

  /** One turn of the counting loop raises the character's count by one and changes no other key. */
  lemma CountCharLookup(u: Table, c: int, key: int)
    requires |u| == BucketCount
    ensures Lookup(CountChar(u, c), key) == if key == c then Some(Before(u, c) + 1) else Lookup(u, key)
  {
    match Lookup(u, c)
      case None => LookupAfterPut(u, c, 1, key);
      case Some(n) => LookupAfterPut(u, c, n + 1, key);
  }

  /** One turn of the counting loop keeps the map's invariant. */
  lemma CountCharKeeps(u: Table, c: int)
    requires WellFormed(u)
    ensures WellFormed(CountChar(u, c))
  {
    PutPreservesWellFormed(u, c, Before(u, c) + 1);
  }

  /**
   * After `buildFrequencyMap`, the pseudo-EOF has count 1 (overwriting any
   * earlier value), every character of the text has its old count plus its
   * occurrences, and no other key changes.
   */
  lemma FrequencyCounts(t: Table, s: seq<Char>, key: int)
    requires WellFormed(t)
    ensures WellFormed(FrequencyTable(t, s))
    ensures Lookup(FrequencyTable(t, s), PseudoEof) == Some(1)
    ensures key != PseudoEof && key !in s ==> Lookup(FrequencyTable(t, s), key) == Lookup(t, key)
    ensures key != PseudoEof && key in s ==>
      Lookup(FrequencyTable(t, s), key) == Some(Before(t, key) + multiset(s)[key as Char])
  {
    CountAllKeeps(t, s);
    CountAllCounts(t, s, key);
    OccurrencesCount(s, key);
    PutPreservesWellFormed(CountAll(t, s), PseudoEof, 1);
    LookupAfterPut(CountAll(t, s), PseudoEof, 1, key);
  }

  /** Counting into an empty map: exactly the characters of the text and the pseudo-EOF are keys. */
  lemma FrequencyKeys(s: seq<Char>, key: int)
    ensures WellFormed(FrequencyTable(EmptyTable(), s))
    ensures Lookup(FrequencyTable(EmptyTable(), s), key).Some? <==> key == PseudoEof || key in s
  {
    assert WellFormed(EmptyTable()) by {
      assert forall i :: 0 <= i < BucketCount ==> EmptyTable()[i] == [];
    }
    assert Lookup(EmptyTable(), key) == None;
    FrequencyCounts(EmptyTable(), s, key);
    if -128 <= key < 128 {
      assert key in s <==> multiset(s)[key as Char] > 0;
    }
  }

  /** One more character of the text is one more turn of the counting loop. */
  lemma CountAllStep(t: Table, s: seq<Char>, i: nat)
    requires |t| == BucketCount && i < |s|
    ensures CountAll(t, s[..i + 1]) == CountChar(CountAll(t, s[..i]), s[i])
  {
    assert s[..i + 1][..i] == s[..i];
    DeferredCountIs(CountAll(t, s[..i]), s[i]);
  }

  /** The body of the counting loop: `put(c, 1)` for a new character, else `put(c, get(c) + 1)`. */
  method CountOne(m: HashMap, c: Char)
    requires m.Valid()
    modifies m.buckets
    ensures m.Valid()
    ensures m.buckets[..] == CountChar(old(m.buckets[..]), c)
  {
    var present := m.ContainsKey(c);
    if !present {
      m.Put(c, 1);
    } else {
      var n := m.Get(c);
      m.Put(c, n.value + 1);
    }
  }

  /**
   * `buildFrequencyMap(text, false, map)`: count each character of the text
   * in turn, then `put(PSEUDO_EOF, 1)`.
   */
  method BuildFrequencyMap(text: seq<Char>, m: HashMap)
    requires m.Valid()
    modifies m.buckets
    ensures m.Valid()
    ensures m.buckets[..] == FrequencyTable(old(m.buckets[..]), text)
  {
    ghost var start := m.buckets[..];
    var i := 0;
    while i < |text|
      invariant 0 <= i <= |text|
      invariant m.Valid()
      invariant m.buckets[..] == CountAll(start, text[..i])
    {
      CountAllStep(start, text, i);
      CountOne(m, text[i]);
      i := i + 1;
    }
    assert text[..|text|] == text;
    m.Put(PseudoEof, 1);
  }
}
