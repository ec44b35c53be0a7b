/** Literal search over decoded text, reported as byte offsets of the original object. */
module Matching {
  import opened Bytes
  import opened Utf8

  /** How many hits get a context window. */
  const MATCH_CONTEXT_HITS: nat := 4

  /** The first occurrence at or after `from`, or -1, as Python's `str.find`. */
  function Find<T(==)>(s: seq<T>, pattern: seq<T>, from: nat): (hit: int)
    ensures hit == -1 || from <= hit
    ensures hit >= 0 ==> OccursAt(s, pattern, hit) && forall i :: from <= i < hit ==> !OccursAt(s, pattern, i)
    ensures hit == -1 ==> forall i :: from <= i ==> !OccursAt(s, pattern, i)
    decreases |s| + 1 - from
  {
    if from + |pattern| > |s| then -1
    else if OccursAt(s, pattern, from) then from
    else Find(s, pattern, from + 1)
  }

  function Stride(length: nat): nat {
    if length == 0 then 1 else length
  }

  /** Up to `limit` occurrences from `position` on, each search resuming after the previous hit. */
  function Hits<T(==)>(s: seq<T>, pattern: seq<T>, position: nat, limit: nat): seq<nat>
    decreases limit
  {
    if limit == 0 || Find(s, pattern, position) < 0 then []
    else
      var hit := Find(s, pattern, position);
      [hit] + Hits(s, pattern, hit + Stride(|pattern|), limit - 1)
  }

  /**
    The hits are occurrences in ascending order; the search goes on behind the pattern, or one
    further if it is empty.
  */
  lemma {:induction false} HitsAreOccurrences<T>(s: seq<T>, pattern: seq<T>, position: nat, limit: nat)
    ensures var hits := Hits(s, pattern, position, limit);
      && |hits| <= limit
      && (forall i :: 0 <= i < |hits| ==> position <= hits[i] && OccursAt(s, pattern, hits[i]))
      && (forall i :: 0 <= i < |hits| - 1 ==>
            if pattern == [] then hits[i] + 1 <= hits[i + 1] else hits[i] + |pattern| <= hits[i + 1])
    decreases limit
  {
    hide OccursAt;
    var hits := Hits(s, pattern, position, limit);
    if hits != [] {
      HitsAreOccurrences(s, pattern, hits[0] + Stride(|pattern|), limit - 1);
    }
  }

  /** Position `j` is a hit or lies in one. */
  ghost predicate LiesInAHit(hits: seq<nat>, length: nat, j: nat) {
    exists i :: 0 <= i < |hits| && (hits[i] == j || hits[i] <= j < hits[i] + length)
  }

  /**
    No occurrence is missed: up to the last hit each one is a hit or lies in one, and all of them
    if there are fewer than the limit.
  */
  lemma {:induction false} HitsMissNone<T>(s: seq<T>, pattern: seq<T>, position: nat, limit: nat, j: nat)
    requires var hits := Hits(s, pattern, position, limit); |hits| < limit || (hits != [] && j <= hits[|hits| - 1])
    requires position <= j && OccursAt(s, pattern, j)
    ensures LiesInAHit(Hits(s, pattern, position, limit), |pattern|, j)
    decreases limit
  {
    hide OccursAt;
    var hits := Hits(s, pattern, position, limit);
    var next := hits[0] + Stride(|pattern|);
    if j >= next {
      var rest := Hits(s, pattern, next, limit - 1);
      assert hits == [hits[0]] + rest;
      HitsMissNone(s, pattern, next, limit - 1, j);
      var i :| 0 <= i < |rest| && (rest[i] == j || rest[i] <= j < rest[i] + |pattern|);
      assert hits[i + 1] == rest[i];
    } else {
      assert hits[0] == j || hits[0] <= j < hits[0] + |pattern|;
    }
  }

  lemma HitsUnfold<T>(s: seq<T>, pattern: seq<T>, position: nat, limit: nat, prefix: seq<nat>)
    ensures var hit := Find(s, pattern, position);
      prefix + Hits(s, pattern, position, limit)
      == if limit == 0 || hit < 0 then prefix
         else prefix + [hit] + Hits(s, pattern, hit + Stride(|pattern|), limit - 1)
  {
    hide OccursAt;
    var hit := Find(s, pattern, position);
    if limit > 0 && hit >= 0 {
      var rest := Hits(s, pattern, hit + Stride(|pattern|), limit - 1);
      assert prefix + ([hit] + rest) == prefix + [hit] + rest;
    }
  }

  method LiteralOffsets(text: seq<Scalar>, pattern: seq<Scalar>) returns (offsets: seq<nat>)
    ensures offsets == Hits(text, pattern, 0, 4)
  {
    hide OccursAt, Hits, Find;
    offsets := [];
    var position: nat := 0;
    while |offsets| < MATCH_CONTEXT_HITS
      invariant |offsets| <= MATCH_CONTEXT_HITS
      invariant offsets + Hits(text, pattern, position, MATCH_CONTEXT_HITS - |offsets|)
        == Hits(text, pattern, 0, MATCH_CONTEXT_HITS)
    {
      HitsUnfold(text, pattern, position, MATCH_CONTEXT_HITS - |offsets|, offsets);
      var index := Find(text, pattern, position);
      if index < 0 {
        return;
      }
      offsets := offsets + [index];
      position := index + Stride(|pattern|);
    }
    HitsUnfold(text, pattern, position, 0, offsets);
  }

  /** The byte offsets of the character offsets that are in range. */
  function CharacterOffsetsToBytes(byteOffsets: seq<nat>, offsets: seq<nat>): seq<nat> {
    if offsets == [] then []
    else
      (if offsets[0] < |byteOffsets| then [byteOffsets[offsets[0]]] else [])
      + CharacterOffsetsToBytes(byteOffsets, offsets[1..])
  }

  lemma ByteOffsetsIncrease(raw: seq<Byte>, i: nat, j: nat)
    requires i < j <= |Text(raw)|
    ensures ByteOffset(raw, i) < ByteOffset(raw, j)
    decreases j - i
  {
    hide Text, DecodeFirst, ByteOffset;
    BoundaryStep(raw, j - 1);
    if i < j - 1 {
      ByteOffsetsIncrease(raw, i, j - 1);
    }
  }

  /** Finding the pattern in the text finds its encoding in the bytes, at the same place. */
  lemma FindCommutes(raw: seq<Byte>, pattern: seq<Scalar>, o: nat)
    requires pattern != [] && REPLACEMENT !in pattern && o <= |Text(raw)|
    ensures var hit := Find(Text(raw), pattern, o);
      && hit <= |Text(raw)|
      && Find(raw, EncodeAll(pattern), ByteOffset(raw, o)) == if hit < 0 then -1 else ByteOffset(raw, hit)
  {
    hide Text, EncodeAll, ByteOffset, DecodeFirst;
    var encoded, start := EncodeAll(pattern), ByteOffset(raw, o);
    var hit, byteHit := Find(Text(raw), pattern, o), Find(raw, encoded, start);
    if byteHit >= 0 {
      var aligned := ByteOccurrencesAreAligned(raw, pattern, byteHit);
      CharacterSearchIsByteSearch(raw, pattern, aligned);
      if aligned < o {
        ByteOffsetsIncrease(raw, aligned, o);
      }
      assert 0 <= hit <= aligned;
      if hit < aligned {
        ByteOffsetsIncrease(raw, hit, aligned);
      }
    }
    if hit >= 0 {
      CharacterSearchIsByteSearch(raw, pattern, hit);
      if o < hit {
        ByteOffsetsIncrease(raw, o, hit);
      }
    }
  }

  lemma {:induction false} HitsCommute(raw: seq<Byte>, pattern: seq<Scalar>, o: nat, limit: nat)
    requires pattern != [] && REPLACEMENT !in pattern && o <= |Text(raw)|
    ensures CharacterOffsetsToBytes(Offsets(raw, 0), Hits(Text(raw), pattern, o, limit))
         == Hits(raw, EncodeAll(pattern), ByteOffset(raw, o), limit)
    decreases limit
  {
    hide Text, EncodeAll, ByteOffset, DecodeFirst, Offsets, Find;
    FindCommutes(raw, pattern, o);
    var hit := Find(Text(raw), pattern, o);
    if limit > 0 && hit >= 0 {
      CharacterSearchIsByteSearch(raw, pattern, hit);
      ByteOffsetIsTheOffset(raw, hit);
      HitsCommute(raw, pattern, hit + |pattern|, limit - 1);
      EncodedPatternIsNotEmpty(pattern);
      var rest := Hits(Text(raw), pattern, hit + |pattern|, limit - 1);
      assert ([hit] + rest)[1..] == rest;
    }
  }

  lemma EncodedPatternIsNotEmpty(pattern: seq<Scalar>)
    requires pattern != []
    ensures EncodeAll(pattern) != []
  {
  }

  /**
    The reported byte offsets are exactly the first occurrences of the pattern's UTF-8 bytes in the
    raw object, whatever undecodable bytes it contains.
  */
  lemma ReportedOffsetsAreByteHits(raw: seq<Byte>, pattern: seq<Scalar>)
    requires pattern != [] && REPLACEMENT !in pattern
    ensures CharacterOffsetsToBytes(Offsets(raw, 0), Hits(Text(raw), pattern, 0, MATCH_CONTEXT_HITS))
         == Hits(raw, EncodeAll(pattern), 0, MATCH_CONTEXT_HITS)
  {
    HitsCommute(raw, pattern, 0, MATCH_CONTEXT_HITS);
  }

  /** A match without context: the pattern is somewhere in the text iff its bytes are somewhere in the object. */
  lemma MatchedIffBytesPresent(raw: seq<Byte>, pattern: seq<Scalar>)
    requires pattern != [] && REPLACEMENT !in pattern
    ensures (exists o: nat :: OccursAt(Text(raw), pattern, o))
      <==> (exists b: nat :: OccursAt(raw, EncodeAll(pattern), b))
  {
    FindCommutes(raw, pattern, 0);
    var hit, byteHit := Find(Text(raw), pattern, 0), Find(raw, EncodeAll(pattern), 0);
    assert hit >= 0 <==> byteHit >= 0;
    if o: nat :| OccursAt(Text(raw), pattern, o) {
      assert OccursAt(raw, EncodeAll(pattern), byteHit);
    }
    if b: nat :| OccursAt(raw, EncodeAll(pattern), b) {
      assert OccursAt(Text(raw), pattern, hit);
    }
  }
}
