/**
 * The `hashmap` class of hashmap.cpp: an array of ten buckets, each holding a
 * chain of key/value nodes. Each chain is kept as a sequence of entries that
 * the methods reassign; every method is proved against the table functions
 * of module Chains, and the text form against module Header.
 */
module HashMaps {
  import opened Common
  import opened Hashing
  import opened Chains
  import opened Header
  import opened Decimal

  class HashMap {
    /** `buckets[i]` is the chain hanging off bucket i, head first. */
    var buckets: array<seq<Entry>>

    /** Ten buckets; every key sits once, in the bucket it hashes to. */
    ghost predicate Valid()
      reads this, buckets
    {
      buckets.Length == BucketCount && WellFormed(buckets[..])
    }

    /** `hashmap()`: ten empty buckets. */
    constructor()
      ensures Valid() && fresh(buckets)
      ensures buckets[..] == EmptyTable()
    {
      buckets := new seq<Entry>[BucketCount](_ => []);
      new;
      assert buckets[..] == EmptyTable();
    }

    /**
     * `put`: walk the key's chain; overwrite the value of the node carrying
     * the key, or append a new node at the tail when there is none.
     */
    method Put(key: int, value: int)
      requires Valid()
      modifies buckets
      ensures Valid()
      ensures buckets[..] == Chains.Put(old(buckets[..]), key, value)
    {
      ghost var t := buckets[..];
      PutPreservesWellFormed(t, key, value);
      var n := BucketOf(key);
      var chain := buckets[n];
      var i := 0;
      while i < |chain|
        invariant 0 <= i <= |chain|
        invariant forall j :: 0 <= j < i ==> chain[j].key != key
      {
        if chain[i].key == key {
          FindIs(chain, key, i);
          buckets[n] := chain[i := Entry(key, value)];
          assert buckets[..] == t[n := chain[i := Entry(key, value)]];
          return;
        }
        i := i + 1;
      }
      FindIs(chain, key, |chain|);
      buckets[n] := chain + [Entry(key, value)];
      assert buckets[..] == t[n := chain + [Entry(key, value)]];
    }

    /** `get`: the value of the key's node; None stands for the `out_of_range` throw. */
    method Get(key: int) returns (r: Option<int>)
      requires Valid()
      ensures r == Lookup(buckets[..], key)
      ensures r.Some? <==> key in Chains.Keys(buckets[..])
    {
      KeysExactlyOnce(buckets[..], key);
      var chain := buckets[BucketOf(key)];
      var i := 0;
      while i < |chain|
        invariant 0 <= i <= |chain|
        invariant forall j :: 0 <= j < i ==> chain[j].key != key
      {
        if chain[i].key == key {
          FindIs(chain, key, i);
          return Some(chain[i].value);
        }
        i := i + 1;
      }
      FindIs(chain, key, |chain|);
      return None;
    }

    /** `containsKey`: whether some node of the key's bucket carries the key. */
    method ContainsKey(key: int) returns (b: bool)
      requires Valid()
      ensures b <==> exists j :: 0 <= j < |buckets[BucketOf(key)]| && buckets[BucketOf(key)][j].key == key
      ensures b <==> Lookup(buckets[..], key).Some?
    {
      LookupFindsBucket(buckets[..], key);
      var chain := buckets[BucketOf(key)];
      var i := 0;
      while i < |chain|
        invariant 0 <= i <= |chain|
        invariant forall j :: 0 <= j < i ==> chain[j].key != key
      {
        if chain[i].key == key {
          return true;
        }
        i := i + 1;
      }
      return false;
    }

    /** `keys()`: every bucket in order, every chain from head to tail; each stored key once. */
    method Keys() returns (ks: seq<int>)
      requires Valid()
      ensures ks == Chains.Keys(buckets[..])
      ensures forall m, n :: 0 <= m < n < |ks| ==> ks[m] != ks[n]
      ensures forall key :: key in ks <==> Lookup(buckets[..], key).Some?
    {
      ghost var t := buckets[..];
      ks := [];
      var i := 0;
      while i < BucketCount
        invariant 0 <= i <= BucketCount
        invariant ks == KeysOf(Flatten(t[..i]))
      {
        var chain := buckets[i];
        ghost var before := ks;
        var j := 0;
        while j < |chain|
          invariant 0 <= j <= |chain|
          invariant ks == before + KeysOf(chain[..j])
        {
          KeysOfPush(chain, j);
          ks := ks + [chain[j].key];
          j := j + 1;
        }
        FlattenStep(t, i);
        assert chain[..j] == chain;
        i := i + 1;
      }
      assert t[..BucketCount] == t;
      forall key
        ensures key in ks <==> Lookup(t, key).Some?
      {
        KeysExactlyOnce(t, key);
      }
      KeysExactlyOnce(t, 0);
    }

    /**
     * The loop shared by the copy constructor and `operator=`: take the
     * other map's `keys()` and `put` each with its `get` value.
     */
    method PutAllOf(other: HashMap)
      requires Valid() && other.Valid() && other.buckets != buckets
      modifies buckets
      ensures Valid()
      ensures buckets[..] == PutAll(old(buckets[..]), Flatten(other.buckets[..]))
    {
      ghost var start := buckets[..];
      ghost var src := other.buckets[..];
      ghost var f := Flatten(src);
      var keys := other.Keys();
      var i := 0;
      while i < |keys|
        invariant 0 <= i <= |keys|
        invariant Valid() && other.buckets[..] == src
        invariant buckets[..] == PutAll(start, f[..i])
      {
        var key := keys[i];
        var value := other.Get(key);
        KeyAt(src, i);
        Put(key, value.value);
        PutAllStep(start, f, i);
        i := i + 1;
      }
      assert f[..|keys|] == f;
    }

    /** The copy constructor: a fresh bucket array holding the other map's chains, node for node. */
    constructor Copy(other: HashMap)
      requires other.Valid()
      ensures Valid() && fresh(buckets)
      ensures buckets[..] == other.buckets[..]
    {
      buckets := new seq<Entry>[BucketCount](_ => []);
      new;
      assert buckets[..] == EmptyTable();
      PutAllOf(other);
      Rebuild(other.buckets[..]);
    }

    /**
     * `operator=`: nothing happens on self-assignment; otherwise every chain
     * is emptied and the other map's pairs are put in its `keys()` order,
     * which rebuilds its chains exactly.
     */
    method Assign(other: HashMap)
      requires Valid() && other.Valid()
      requires other != this ==> other.buckets != buckets
      modifies buckets
      ensures Valid()
      ensures buckets[..] == old(other.buckets[..])
    {
      if other == this {
        return;
      }
      var i := 0;
      while i < BucketCount
        invariant 0 <= i <= BucketCount
        invariant buckets.Length == BucketCount
        invariant forall j :: 0 <= j < i ==> buckets[j] == []
      {
        buckets[i] := [];
        i := i + 1;
      }
      assert buckets[..] == EmptyTable();
      PutAllOf(other);
      Rebuild(other.buckets[..]);
    }

    /**
     * `operator<<`: "{", then `key:value` for each key in `keys()` order with
     * ", " between them, then "}".
     */
    method Serialize() returns (text: string)
      requires Valid()
      ensures text == HeaderText(Flatten(buckets[..]))
    {
      ghost var f := Flatten(buckets[..]);
      var keys := Keys();
      text := "{";
      var i := 0;
      while i < |keys|
        invariant 0 <= i <= |keys|
        invariant text == "{" + Body(f[..i]) + (if 0 < i < |keys| then ", " else "")
      {
        ghost var before := text;
        var key := keys[i];
        var value := Get(key);
        KeyAt(buckets[..], i);
        text := text + PairText(Entry(key, value.value));
        if i < |keys| - 1 {
          text := text + ", ";
        }
        SerializeNext(f, i, before, text);
        i := i + 1;
      }
      assert f[..|keys|] == f;
      text := text + "}";
    }

    /** The `put` of one segment: nothing for an empty one, else its key and value; false when `stoi` throws. */
    method PutSegment(segment: string) returns (ok: bool)
      requires Valid()
      modifies buckets
      ensures Valid()
      ensures ok == SegmentPairs(segment).Some?
      ensures ok ==> buckets[..] == PutAll(old(buckets[..]), SegmentPairs(segment).value)
      ensures !ok ==> buckets[..] == old(buckets[..])
    {
      SegmentPairsIs(segment);
      if segment == "" {
        return true;
      }
      var e := ParseEntry(segment);
      if e.None? {
        return false;
      }
      Put(e.value.key, e.value.value);
      assert [e.value][..0] == [];
      return true;
    }

    /**
     * `operator>>`: skip the first character, then read segments up to ','
     * or '}' and `put` each non-empty one, on top of what the map holds. The
     * result is the number of characters consumed through the '}', or why
     * the read stopped short; the puts made before a throwing `stoi` stay.
     */
    method Parse(input: string) returns (r: Result<nat, HeaderError>)
      requires Valid()
      modifies buckets
      ensures Valid()
      ensures buckets[..] == PutAll(old(buckets[..]), ParseHeader(input).pairs)
      ensures r == ParseHeader(input).end
    {
      if |input| == 0 {
        return Err(Unterminated);
      }
      ghost var start := buckets[..];
      ghost var whole := ReadFrom(input, 1);
      ghost var done: seq<Entry> := [];
      var pos := 1;
      while true
        invariant 1 <= pos <= |input|
        invariant Valid()
        invariant buckets[..] == PutAll(start, done)
        invariant whole.pairs == done + ReadFrom(input, pos).pairs
        invariant whole.end == ReadFrom(input, pos).end
        decreases |input| - pos
      {
        var next, stop, read := ReadAndPutSegment(input, pos);
        PutAllAppend(start, done, read);
        if stop.Some? {
          return stop.value;
        }
        Regroup(done, read, ReadFrom(input, next).pairs);
        done := done + read;
        pos := next;
      }
    }

    /**
     * One turn of the outer loop of `operator>>`: read the segment from
     * `from` up to ',' or '}', step past the separator, and `put` the
     * segment. `stop` is how the read ended, when this segment ended it;
     * otherwise the read goes on at `pos`.
     */
    method ReadAndPutSegment(input: string, from: nat) returns (pos: nat, stop: Option<Result<nat, HeaderError>>, ghost read: seq<Entry>)
      requires Valid() && from <= |input|
      modifies buckets
      ensures Valid()
      ensures buckets[..] == PutAll(old(buckets[..]), read)
      ensures stop.Some? ==> read == ReadFrom(input, from).pairs && stop.value == ReadFrom(input, from).end
      ensures stop.None? ==> from < pos <= |input|
      ensures stop.None? ==> ReadFrom(input, from).pairs == read + ReadFrom(input, pos).pairs
      ensures stop.None? ==> ReadFrom(input, from).end == ReadFrom(input, pos).end
    {
      pos := ReadSegmentEnd(input, from);
      if pos == |input| {
        StepUnterminated(input, from);
        return pos, Some(Err(Unterminated)), [];
      }
      var segment := input[from..pos];
      var closing := input[pos] == '}';
      var segEnd := pos;
      if closing {
        pos := pos + 1;
      } else {
        pos := if pos + 2 <= |input| then pos + 2 else |input|;
      }
      var ok := PutSegment(segment);
      if !ok {
        StepBad(input, from, segEnd);
        return pos, Some(Err(BadInteger)), [];
      }
      read := SegmentPairs(segment).value;
      if closing {
        StepClosed(input, from, segEnd, read);
        return pos, Some(Ok(pos)), read;
      }
      StepNext(input, from, segEnd, pos, read);
      stop := None;
    }
  }

  /** The inner `while` of `operator>>`: advance to the first ',' or '}', or to the end of the text. */
  method ReadSegmentEnd(input: string, from: nat) returns (pos: nat)
    requires from <= |input|
    ensures from <= pos <= |input|
    ensures pos - from == ScanTo(input[from..])
  {
    pos := from;
    while pos < |input| && !IsStop(input[pos])
      invariant from <= pos <= |input|
      invariant forall k :: from <= k < pos ==> !IsStop(input[k])
    {
      pos := pos + 1;
    }
    ScanFrom(input, from, pos);
  }

  /** Printing the next pair after the first `i`, and the separator before it when there is one. */
  lemma SerializeStep(f: seq<Entry>, i: nat, text: string)
    requires i < |f|
    requires text == "{" + Body(f[..i]) + (if i > 0 then ", " else "")
    ensures text + PairText(f[i]) == "{" + Body(f[..i + 1])
  {
    var p := PairText(f[i]);
    if i == 0 {
      assert f[..1] == [f[0]];
      assert PairTexts([f[0]]) == [p];
      assert Body(f[..1]) == p;
      assert text == "{";
    } else {
      BodyPrefix(f, i);
      var b := Body(f[..i]);
      Regroup("{" + b, ", ", p);
      Regroup("{", b + ", ", p);
      Regroup("{", b, ", ");
    }
  }

  /** One turn of the printing loop: the next pair, and ", " unless it is the last one. */
  lemma SerializeNext(f: seq<Entry>, i: nat, text: string, after: string)
    requires i < |f|
    requires text == "{" + Body(f[..i]) + (if 0 < i < |f| then ", " else "")
    requires after == if i < |f| - 1 then text + PairText(f[i]) + ", " else text + PairText(f[i])
    ensures after == "{" + Body(f[..i + 1]) + (if 0 < i + 1 < |f| then ", " else "")
  {
    SerializeStep(f, i, text);
  }

  /** The `i`-th key of `keys()` looks up the value of the `i`-th node. */
  lemma KeyAt(t: Table, i: nat)
    requires WellFormed(t) && i < |Flatten(t)|
    ensures Chains.Keys(t)[i] == Flatten(t)[i].key
    ensures Lookup(t, Flatten(t)[i].key) == Some(Flatten(t)[i].value)
  {
    var f := Flatten(t);
    assert f[i] in f;
    FlattenLookup(t, f[i].key, f[i].value);
  }

  /** One more `put` of the next entry. */
  lemma PutAllStep(t: Table, es: seq<Entry>, i: nat)
    requires |t| == BucketCount && i < |es|
    ensures PutAll(t, es[..i + 1]) == Chains.Put(PutAll(t, es[..i]), es[i].key, es[i].value)
  {
    assert es[..i + 1][..i] == es[..i];
  }

  /** The keys of two lists of nodes, one after the other. */
  lemma KeysOfAppend(a: seq<Entry>, b: seq<Entry>)
    ensures KeysOf(a + b) == KeysOf(a) + KeysOf(b)
  {
  }

  /** One more node of a chain adds its key. */
  lemma KeysOfPush(c: seq<Entry>, j: nat)
    requires j < |c|
    ensures KeysOf(c[..j + 1]) == KeysOf(c[..j]) + [c[j].key]
  {
    assert c[..j + 1] == c[..j] + [c[j]];
    KeysOfAppend(c[..j], [c[j]]);
  }

  /** Flattening one more bucket appends its chain, and so its keys. */
  lemma FlattenStep(t: seq<seq<Entry>>, i: nat)
    requires i < |t|
    ensures Flatten(t[..i + 1]) == Flatten(t[..i]) + t[i]
    ensures KeysOf(Flatten(t[..i + 1])) == KeysOf(Flatten(t[..i])) + KeysOf(t[i])
  {
    assert t[..i + 1][..i] == t[..i];
    KeysOfAppend(Flatten(t[..i]), t[i]);
  }

  /** What the inner loop of `operator>>` establishes, restated on the rest of the text. */
  lemma ScanFrom(input: string, start: nat, pos: nat)
    requires start <= pos <= |input|
    requires forall k :: start <= k < pos ==> !IsStop(input[k])
    requires pos < |input| ==> IsStop(input[pos])
    ensures ScanTo(input[start..]) == pos - start
    ensures input[start..][..pos - start] == input[start..pos]
    ensures pos < |input| ==> input[start..][pos - start] == input[pos]
  {
    var u := input[start..];
    assert forall k :: 0 <= k < pos - start ==> u[k] == input[start + k];
    ScanToIs(u, pos - start);
  }

  /** A segment that runs to the end of the text: the read never closes. */
  lemma ParseFromUnterminated(u: string)
    requires ScanTo(u) == |u|
    ensures ParseFrom(u) == Outcome([], Err(Unterminated))
  {
  }

  /** The read from position `from` of the text, with the end it reports counted from the start of the text. */
  ghost function ReadFrom(input: string, from: nat): Outcome
    requires from <= |input|
  {
    var o := ParseFrom(input[from..]);
    Outcome(o.pairs, Shift(o.end, from))
  }

  /** The text runs out before a ',' or '}': nothing more is put and the read never ends. */
  lemma StepUnterminated(input: string, start: nat)
    requires start <= |input| && ScanTo(input[start..]) == |input| - start
    ensures ReadFrom(input, start) == Outcome([], Err(Unterminated))
  {
    ParseFromUnterminated(input[start..]);
  }

  /** A segment whose `stoi` throws ends the read with nothing more put. */
  lemma StepBad(input: string, start: nat, end: nat)
    requires start <= end < |input|
    requires ScanTo(input[start..]) == end - start && SegmentPairs(input[start..end]).None?
    ensures ReadFrom(input, start) == Outcome([], Err(BadInteger))
  {
    ParseFromBadSegment(input, start, end);
  }

  /** A segment closed by '}' ends the read with its pairs, right after the '}'. */
  lemma StepClosed(input: string, start: nat, end: nat, read: seq<Entry>)
    requires start <= end < |input|
    requires ScanTo(input[start..]) == end - start && input[end] == '}'
    requires SegmentPairs(input[start..end]) == Some(read)
    ensures ReadFrom(input, start) == Outcome(read, Ok(end + 1))
  {
    ParseFromClosed(input, start, end, read);
    ShiftPast(end + 1 - start, start, end + 1);
  }

  /** A segment closed by ',' adds its pairs, and the read goes on at `next`. */
  lemma StepNext(input: string, start: nat, end: nat, next: nat, read: seq<Entry>)
    requires start <= end < |input|
    requires ScanTo(input[start..]) == end - start && input[end] != '}'
    requires SegmentPairs(input[start..end]) == Some(read)
    requires next == if end + 2 <= |input| then end + 2 else |input|
    ensures ReadFrom(input, start).pairs == read + ReadFrom(input, next).pairs
    ensures ReadFrom(input, start).end == ReadFrom(input, next).end
  {
    ParseFromNext(input, start, end, next, read);
    ShiftTwice(ParseFrom(input[next..]).end, next - start, start, next);
  }

  /** A segment whose `stoi` throws: no pair from it or after it. */
  lemma ParseFromBadSegment(input: string, start: nat, end: nat)
    requires start <= end < |input| && ScanTo(input[start..]) == end - start
    requires SegmentPairs(input[start..end]).None?
    ensures ParseFrom(input[start..]) == Outcome([], Err(BadInteger))
  {
    SuffixSlices(input, start, end);
  }

  /** A segment closed by '}': its pairs, and the read ends after the '}'. */
  lemma ParseFromClosed(input: string, start: nat, end: nat, read: seq<Entry>)
    requires start <= end < |input| && ScanTo(input[start..]) == end - start && input[end] == '}'
    requires SegmentPairs(input[start..end]) == Some(read)
    ensures ParseFrom(input[start..]) == Outcome(read, Ok(end + 1 - start))
  {
    var u := input[start..];
    SuffixSlices(input, start, end);
    assert u[end - start] == '}';
  }

  /**
   * A segment closed by ',': its pairs, then the read goes on at `next`,
   * after the character following the ','.
   */
  lemma ParseFromNext(input: string, start: nat, end: nat, next: nat, read: seq<Entry>)
    requires start <= end < |input| && ScanTo(input[start..]) == end - start && input[end] != '}'
    requires SegmentPairs(input[start..end]) == Some(read)
    requires next == if end + 2 <= |input| then end + 2 else |input|
    ensures ParseFrom(input[start..]).pairs == read + ParseFrom(input[next..]).pairs
    ensures ParseFrom(input[start..]).end == Shift(ParseFrom(input[next..]).end, next - start)
  {
    CommaSlices(input, start, end, next, read);
    ParseFromAfterComma(input[start..], end - start, read, next - start, input[next..]);
  }

  /** The slices of the text from `start` that `ParseFromNext` reads. */
  lemma CommaSlices(input: string, start: nat, end: nat, next: nat, read: seq<Entry>)
    requires start <= end < |input| && ScanTo(input[start..]) == end - start && input[end] != '}'
    requires SegmentPairs(input[start..end]) == Some(read)
    requires next == if end + 2 <= |input| then end + 2 else |input|
    ensures SegmentThenComma(input[start..], end - start, read, next - start, input[next..])
  {
    var u := input[start..];
    SuffixSlices(input, start, end);
    SuffixSlices(input, start, next);
    assert u[end - start] != '}';
  }

  /**
   * The printed form of a map, read into an empty map, rebuilds its chains
   * exactly, so the copy holds the same pairs in the same `keys()` order; the
   * read consumes the text through its closing '}'.
   */
  lemma SerializeParseRoundTrip(t: Table)
    requires WellFormed(t)
    ensures PutAll(EmptyTable(), ParseHeader(HeaderText(Flatten(t))).pairs) == t
    ensures Chains.Keys(PutAll(EmptyTable(), ParseHeader(HeaderText(Flatten(t))).pairs)) == Chains.Keys(t)
    ensures ParseHeader(HeaderText(Flatten(t))).end == Ok(|HeaderText(Flatten(t))|)
  {
    ParseHeaderText(Flatten(t), "");
    assert HeaderText(Flatten(t)) + "" == HeaderText(Flatten(t));
    Rebuild(t);
  }

  /** Reading "{}" puts nothing: the map is left as it was. */
  lemma ParseEmptyKeepsMap(t: Table)
    requires |t| == BucketCount
    ensures PutAll(t, ParseHeader("{}").pairs) == t
  {
    ParseEmpty();
  }
}
