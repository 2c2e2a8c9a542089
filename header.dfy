/**
 * The text form of a hash map, as `operator<<` prints it and `operator>>`
 * reads it back: `{k:v, k:v}`.
 */
module Header {
  import opened Common
  import opened Decimal
  import opened Chains

  /** Why a read stops before a closing '}': the text ran out, or `stoi` threw. */
  datatype HeaderError = Unterminated | BadInteger

  /**
   * What a read does: the pairs it `put`s, in order, and how it ends (the
   * number of characters consumed through the closing '}', or the error).
   */
  datatype Outcome = Outcome(pairs: seq<Entry>, end: Result<nat, HeaderError>)

  /** `key:value` as `out << key << ":" << value` prints it. */
  function PairText(e: Entry): string
  {
    IntToString(e.key) + ":" + IntToString(e.value)
  }

  /** Pieces of text separated by ", ", with no separator after the last one. */
  function Join(ps: seq<string>): string
    decreases |ps|
  {
    if |ps| == 0 then ""
    else if |ps| == 1 then ps[0]
    else ps[0] + ", " + Join(ps[1..])
  }

  /** The printed pairs, one piece of text each. */
  function PairTexts(es: seq<Entry>): (ps: seq<string>)
    ensures |ps| == |es|
    ensures forall i :: 0 <= i < |es| ==> ps[i] == PairText(es[i])
  {
    seq(|es|, i requires 0 <= i < |es| => PairText(es[i]))
  }

  /** The body of the printed map: its pairs separated by ", ". */
  function Body(es: seq<Entry>): string
  {
    Join(PairTexts(es))
  }

  /** The whole printed map: braces around the body. */
  function HeaderText(es: seq<Entry>): string
  {
    "{" + Body(es) + "}"
  }

  /** One more piece after a non-empty join adds a separator and the piece. */
  lemma {:induction false} JoinAppend(ps: seq<string>, p: string)
    requires |ps| > 0
    ensures Join(ps + [p]) == Join(ps) + ", " + p
    decreases |ps|
  {
    if |ps| > 1 {
      JoinAppend(ps[1..], p);
      assert (ps + [p])[1..] == ps[1..] + [p];
    } else {
      assert (ps + [p])[1..] == [p];
    }
  }

  /** Printing one more pair after a non-empty body adds a separator and the pair. */
  lemma BodyAppend(es: seq<Entry>, e: Entry)
    requires |es| > 0
    ensures Body(es + [e]) == Body(es) + ", " + PairText(e)
  {
    assert PairTexts(es + [e]) == PairTexts(es) + [PairText(e)];
    JoinAppend(PairTexts(es), PairText(e));
  }

  /** The body of the first `i + 1` pairs, for `i > 0`: the body of the first `i`, a separator, the next pair. */
  lemma BodyPrefix(f: seq<Entry>, i: nat)
    requires 0 < i < |f|
    ensures Body(f[..i + 1]) == Body(f[..i]) + ", " + PairText(f[i])
  {
    PrefixStep(f, i);
    BodyAppend(f[..i], f[i]);
  }

  /** Whether a character ends a segment of the body. */
  predicate IsStop(ch: char)
  {
    ch == ',' || ch == '}'
  }

  /** How far the inner `while` of `operator>>` reads: the first ',' or '}', or the end of the text. */
  function ScanTo(s: string): (j: nat)
    ensures j <= |s|
    ensures j < |s| ==> IsStop(s[j])
    ensures forall k :: 0 <= k < j ==> !IsStop(s[k])
    decreases |s|
  {
    if |s| == 0 || IsStop(s[0]) then 0 else 1 + ScanTo(s[1..])
  }

  lemma ScanToIs(s: string, j: nat)
    requires j <= |s|
    requires j < |s| ==> IsStop(s[j])
    requires forall k :: 0 <= k < j ==> !IsStop(s[k])
    ensures ScanTo(s) == j
  {
  }

  /** `find(":")`: the first colon, or the length when there is none. */
  function FindColon(s: string): (i: nat)
    ensures i <= |s|
    ensures i < |s| ==> s[i] == ':'
    ensures forall k :: 0 <= k < i ==> s[k] != ':'
    decreases |s|
  {
    if |s| == 0 || s[0] == ':' then 0 else 1 + FindColon(s[1..])
  }

  /**
   * One non-empty segment: the key is `stoi` of the text before the first
   * colon and the value `stoi` of the text after it. With no colon, `pos` is
   * `npos`, so the key is read from the whole segment and, since `npos + 1`
   * wraps to 0, the value from all of it but its last character. None stands
   * for `stoi` throwing.
   */
  function ParseEntry(seg: string): Option<Entry>
    requires |seg| > 0
  {
    var pos := FindColon(seg);
    var key := StoI(if pos < |seg| then seg[..pos] else seg);
    var value := StoI(if pos < |seg| then seg[pos + 1..] else seg[..|seg| - 1]);
    if key.Some? && value.Some? then Some(Entry(key.value, value.value)) else None
  }

  /** The pairs one segment `put`s: none for an empty segment, else its pair; None when `stoi` throws. */
  function ReadSegment(seg: string): Option<seq<Entry>>
  {
    if seg == "" then Some([])
    else match ParseEntry(seg)
      case Some(e) => Some([e])
      case None => None
  }

  /**
   * ReadSegment behind one step of a countdown, so that proofs about the
   * loop of `operator>>`, which only pass segments along, do not unfold the
   * digit arithmetic of `stoi` (SegmentPairsIs unfolds it where it is wanted).
   */
  function SegmentPairs(seg: string): Option<seq<Entry>>
  {
    DeferredSegment(seg, 1)
  }

  /**
   * ReadSegment after a countdown that only delays its unfolding. It is an
   * aid to the verifier only and models nothing of the source.
   */
  function DeferredSegment(seg: string, countdown: nat): Option<seq<Entry>>
  {
    if countdown == 0 then ReadSegment(seg) else DeferredSegment(seg, countdown - 1)
  }

  lemma SegmentPairsIs(seg: string)
    ensures SegmentPairs(seg) == ReadSegment(seg)
  {
    assert DeferredSegment(seg, 0) == ReadSegment(seg);
  }

  /** An ending moved `k` characters further into the text. */
  function Shift(r: Result<nat, HeaderError>, k: nat): Result<nat, HeaderError>
  {
    if r.Ok? then Ok(r.value + k) else r
  }

  /** Where the next segment starts after a ',' at `j`: the character after it is skipped unread. */
  function AfterComma(s: string, j: nat): (next: nat)
    requires j < |s|
    ensures j < next <= |s|
  {
    if j + 2 <= |s| then j + 2 else |s|
  }

  /**
   * The loop of `operator>>` from the character `nextChar` holds on: read a
   * segment up to ',' or '}', skip the character after a ',', and `put` a
   * non-empty segment. Running out of text is Unterminated: the stream then
   * returns EOF forever, which is neither ',' nor '}', so the source never
   * leaves its inner loop.
   */
  function ParseFrom(s: string): Outcome
    decreases |s|
  {
    var j := ScanTo(s);
    if j == |s| then Outcome([], Err(Unterminated))
    else
      var entry := SegmentPairs(s[..j]);
      if entry.None? then Outcome([], Err(BadInteger))
      else if s[j] == '}' then Outcome(entry.value, Ok(j + 1))
      else
        var next := AfterComma(s, j);
        var rest := ParseFrom(s[next..]);
        Outcome(entry.value + rest.pairs, Shift(rest.end, next))
  }

  /** `operator>>`: the first character (the '{') is skipped unread, then the loop runs. */
  function ParseHeader(s: string): Outcome
  {
    if |s| == 0 then Outcome([], Err(Unterminated))
    else
      var o := ParseFrom(s[1..]);
      Outcome(o.pairs, Shift(o.end, 1))
  }

  /** A key, a colon and a value splits at that colon. */
  lemma FindColonAfter(k: string, v: string)
    requires forall i :: 0 <= i < |k| ==> k[i] != ':'
    ensures FindColon(k + ":" + v) == |k|
  {
    var s := k + ":" + v;
    assert forall i :: 0 <= i < |k| ==> s[i] == k[i];
    assert s[|k|] == ':';
  }

  /** Text free of ',' and '}'. */
  predicate Plain(p: string)
  {
    forall k :: 0 <= k < |p| ==> !IsStop(p[k])
  }

  /** A printed pair is non-empty and holds no ',' or '}'. */
  lemma PairTextPlain(e: Entry)
    ensures |PairText(e)| > 0 && Plain(PairText(e))
  {
    var k, v := IntToString(e.key), IntToString(e.value);
    var s := PairText(e);
    IntToStringChars(e.key);
    IntToStringChars(e.value);
    assert forall i :: 0 <= i < |k| ==> s[i] == k[i];
    assert forall i :: |k| < i < |s| ==> s[i] == v[i - |k| - 1];
  }

  /** A printed pair reads back as the same pair. */
  lemma PairTextParses(e: Entry)
    ensures ParseEntry(PairText(e)) == Some(e)
  {
    var k, v := IntToString(e.key), IntToString(e.value);
    var s := PairText(e);
    IntToStringChars(e.key);
    FindColonAfter(k, v);
    StoIRoundTrip(e.key);
    StoIRoundTrip(e.value);
    assert s[..|k|] == k;
    assert s[|k| + 1..] == v;
  }

  /** A plain segment followed by a stop character is read up to that character. */
  lemma ScanSegment(p: string, rest: string)
    requires Plain(p) && |rest| > 0 && IsStop(rest[0])
    ensures ScanTo(p + rest) == |p|
    ensures (p + rest)[..|p|] == p && (p + rest)[|p|] == rest[0] && (p + rest)[|p| + 1..] == rest[1..]
  {
    var s := p + rest;
    assert forall k :: 0 <= k < |p| ==> s[k] == p[k];
    ScanToIs(s, |p|);
    assert s[..|p|] == p;
    assert s[|p| + 1..] == rest[1..];
  }

  /** A join of two or more pieces is its first piece, a separator, and the join of the others. */
  lemma JoinSplit(ps: seq<string>, rest: string)
    requires |ps| >= 2
    ensures Join(ps) + "}" + rest == ps[0] + (", " + (Join(ps[1..]) + "}" + rest))
    ensures |Join(ps)| == |ps[0]| + 2 + |Join(ps[1..])|
  {
  }

  /** One turn of the loop past a ',': the segment's pairs, then the read from after the skipped character. */
  lemma ParseFromAfterComma(u: string, j: nat, read: seq<Entry>, next: nat, tail: string)
    requires SegmentThenComma(u, j, read, next, tail)
    ensures ParseFrom(u).pairs == read + ParseFrom(tail).pairs
    ensures ParseFrom(u).end == Shift(ParseFrom(tail).end, next)
  {
  }

  /**
   * The text starts with a segment of `j` characters that reads as `read`,
   * closed by a character other than '}'; the read goes on at `next`, with
   * `tail`.
   */
  predicate SegmentThenComma(u: string, j: nat, read: seq<Entry>, next: nat, tail: string)
  {
    && ScanTo(u) == j < |u| && u[j] != '}' && SegmentPairs(u[..j]) == Some(read)
    && next == AfterComma(u, j) && tail == u[next..]
  }

  /** A segment that reads as `e`, closed by '}': one put, and the read ends after the '}'. */
  lemma ParseLastPair(p: string, e: Entry, rest: string)
    requires Plain(p) && SegmentPairs(p) == Some([e])
    ensures ParseFrom(p + ("}" + rest)) == Outcome([e], Ok(|p| + 1))
  {
    ScanSegment(p, "}" + rest);
  }

  /** A segment that reads as `e`, then ", ": one put, and the read goes on after the space. */
  lemma ParseNextPair(p: string, e: Entry, tail: string)
    requires Plain(p) && SegmentPairs(p) == Some([e])
    ensures ParseFrom(p + (", " + tail)).pairs == [e] + ParseFrom(tail).pairs
    ensures ParseFrom(p + (", " + tail)).end == Shift(ParseFrom(tail).end, |p| + 2)
  {
    ScanSegment(p, ", " + tail);
    assert (p + (", " + tail))[|p| + 2..] == tail;
  }

  /** Segments that each read as one pair. */
  predicate ReadAs(ps: seq<string>, es: seq<Entry>)
  {
    |ps| == |es| && forall i :: 0 <= i < |ps| ==> Plain(ps[i]) && SegmentPairs(ps[i]) == Some([es[i]])
  }

  /** Segments that read as `es`, joined and closed by '}', read back as `es`, consuming through the '}'. */
  lemma {:induction false} ParseJoin(ps: seq<string>, es: seq<Entry>, rest: string)
    requires |ps| > 0 && ReadAs(ps, es)
    ensures ParseFrom(Join(ps) + "}" + rest) == Outcome(es, Ok(|Join(ps)| + 1))
    decreases |ps|
  {
    if |ps| == 1 {
      assert Join(ps) + "}" + rest == ps[0] + ("}" + rest);
      ParseLastPair(ps[0], es[0], rest);
      assert [es[0]] == es;
    } else {
      var t := Join(ps[1..]) + "}" + rest;
      ParseNextPair(ps[0], es[0], t);
      assert ReadAs(ps[1..], es[1..]) by {
        assert forall i :: 0 <= i < |ps| - 1 ==> ps[1..][i] == ps[i + 1] && es[1..][i] == es[i + 1];
      }
      ParseJoin(ps[1..], es[1..], rest);
      JoinSplit(ps, rest);
      var s := Join(ps) + "}" + rest;
      assert s == ps[0] + (", " + t);
      assert ParseFrom(s).pairs == es by {
        assert [es[0]] + es[1..] == es;
      }
      var e1 := ParseFrom(t).end;
      assert e1 == Ok(|Join(ps[1..])| + 1);
      assert ParseFrom(s).end == Shift(e1, |ps[0]| + 2);
      ShiftPast(|Join(ps[1..])| + 1, |ps[0]| + 2, |Join(ps)| + 1);
    }
  }

  /** An ending `a` characters in, moved `k` further, is `a + k` characters in. */
  lemma ShiftPast(a: nat, k: nat, n: nat)
    requires n == a + k
    ensures Shift(Ok(a), k) == Ok(n)
  {
  }

  /** Moving an ending twice moves it by the sum. */
  lemma ShiftTwice(r: Result<nat, HeaderError>, a: nat, b: nat, n: nat)
    requires n == a + b
    ensures Shift(Shift(r, a), b) == Shift(r, n)
  {
  }

  /** A printed pair is one segment that reads as that pair. */
  lemma PairTextSegment(e: Entry)
    ensures Plain(PairText(e)) && SegmentPairs(PairText(e)) == Some([e])
  {
    PairTextPlain(e);
    PairTextParses(e);
    SegmentPairsIs(PairText(e));
  }

  /** The printed pairs each read back as their pair. */
  lemma PairTextsReadAs(es: seq<Entry>)
    ensures ReadAs(PairTexts(es), es)
  {
    var ps := PairTexts(es);
    forall i | 0 <= i < |ps|
      ensures Plain(ps[i]) && SegmentPairs(ps[i]) == Some([es[i]])
    {
      PairTextSegment(es[i]);
    }
  }

  /** Past the opening '{', the printed map is its body, then '}', then whatever follows. */
  lemma HeaderTextTail(es: seq<Entry>, rest: string)
    ensures |HeaderText(es)| == |Body(es)| + 2
    ensures (HeaderText(es) + rest)[1..] == Body(es) + "}" + rest
  {
    assert (HeaderText(es) + rest)[1..] == Body(es) + "}" + rest;
  }

  /** The body of a printed map, closed by '}', reads back as its pairs, consuming through the '}'. */
  lemma ParseBody(es: seq<Entry>, rest: string)
    ensures ParseFrom(Body(es) + "}" + rest) == Outcome(es, Ok(|Body(es)| + 1))
  {
    if |es| == 0 {
      assert Body(es) + "}" + rest == "" + ("}" + rest);
      ScanSegment("", "}" + rest);
      SegmentPairsIs("");
    } else {
      PairTextsReadAs(es);
      ParseJoin(PairTexts(es), es, rest);
    }
  }

  /**
   * Reading the printed form of a list of pairs gives back exactly those pairs,
   * in order, and stops right after the closing '}', whatever follows it.
   */
  lemma ParseHeaderText(es: seq<Entry>, rest: string)
    ensures ParseHeader(HeaderText(es) + rest) == Outcome(es, Ok(|HeaderText(es)|))
  {
    HeaderTextTail(es, rest);
    ParseBody(es, rest);
    ShiftPast(|Body(es)| + 1, 1, |HeaderText(es)|);
  }

  /** `{}` reads as no pairs. */
  lemma ParseEmpty()
    ensures ParseHeader("{}") == Outcome([], Ok(2))
  {
    ParseHeaderText([], "");
    assert HeaderText([]) + "" == "{}";
  }
}
