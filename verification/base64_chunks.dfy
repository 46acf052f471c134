/**
 * The splitting of a Base64 string into chunks: runs of valid characters,
 * each closed by an `=`. Characters that are neither valid nor `=` are
 * skipped inside and between chunks, an `=` with no chunk open is skipped,
 * and a chunk still open at the end of the string is dropped.
 */
module Base64Chunks {
  import opened Wrappers
  import opened Base64

  /** A run of valid characters: first position, number of valid characters, last position. */
  datatype Chunk = Chunk(start: nat, count: nat, end: nat)

  /** The scan after a prefix: the chunks emitted so far and the chunk still open. */
  datatype ScanState = ScanState(chunks: seq<Chunk>, open: Option<Chunk>)

  /**
   * One loop iteration on character `c` at position `i`: a valid character
   * opens a chunk if none is open and is counted; `=` closes and emits the
   * open chunk; every other character (and `=` with no open chunk) is skipped.
   */
  function ScanStep(st: ScanState, i: nat, c: char): ScanState {
    if IsValidChar(c) then
      var current := if st.open.None? then Chunk(i, 0, i) else st.open.value;
      ScanState(st.chunks, Some(current.(count := current.count + 1, end := i)))
    else if c == '=' && st.open.Some? then
      ScanState(st.chunks + [st.open.value], None)
    else
      st
  }

  /** The state of the chunk scan after reading all of `s`. */
  function Scan(s: string): ScanState
    decreases |s|
  {
    if |s| == 0 then ScanState([], None)
    else ScanStep(Scan(s[..|s| - 1]), |s| - 1, s[|s| - 1])
  }

  /** The chunks `extractChunks` returns; a chunk still open at the end is dropped. */
  function ExtractChunks(s: string): seq<Chunk> {
    Scan(s).chunks
  }

  /**
   * `ch` describes a run of `s`: it starts and ends on a valid character,
   * counts the valid characters between, and contains no `=`.
   */
  ghost predicate ChunkOf(s: string, ch: Chunk) {
    && ch.start <= ch.end < |s|
    && IsValidChar(s[ch.start]) && IsValidChar(s[ch.end])
    && ch.count == CountValid(s[ch.start..ch.end + 1])
    && '=' !in s[ch.start..ch.end + 1]
  }

  /** Characters in `(from, to)` are skipped by the scan without effect. */
  ghost predicate Inert(s: string, from: int, to: int)
    requires to <= |s|
  {
    forall u :: from < u < to && 0 <= u ==> !IsValidChar(s[u]) && s[u] != '='
  }

  /**
   * What the scan of `s` knows after its first `n` characters: every
   * emitted chunk is a run of `s`, the chunks are in order and disjoint,
   * and an open chunk is a run that follows them with nothing but inert
   * characters between its end and position `n`.
   */
  ghost predicate ConsistentUpTo(s: string, st: ScanState, n: nat)
    requires n <= |s|
  {
    ChunksUpTo(s, st.chunks, n) && Ordered(st.chunks) && OpenUpTo(s, st, n)
  }

  /** Every chunk is a run of `s` that ends before position `n`. */
  ghost predicate ChunksUpTo(s: string, chunks: seq<Chunk>, n: nat)
    requires n <= |s|
  {
    forall k :: 0 <= k < |chunks| ==> ChunkOf(s, chunks[k]) && chunks[k].end < n
  }

  /** Each chunk ends before the next one starts. */
  predicate Ordered(chunks: seq<Chunk>) {
    forall k :: 0 < k < |chunks| ==> chunks[k - 1].end < chunks[k].start
  }

  /** An open chunk is a run after the emitted ones, followed by inert characters up to `n`. */
  ghost predicate OpenUpTo(s: string, st: ScanState, n: nat)
    requires n <= |s|
  {
    st.open.Some? ==>
      && ChunkOf(s, st.open.value)
      && (|st.chunks| > 0 ==> st.chunks[|st.chunks| - 1].end < st.open.value.start)
      && st.open.value.end < n
      && Inert(s, st.open.value.end, n)
  }

  /** What the scan of the whole of `s` knows. */
  ghost predicate Consistent(s: string, st: ScanState) {
    ConsistentUpTo(s, st, |s|)
  }

  lemma CountValidAppend(a: string, b: string)
    ensures CountValid(a + b) == CountValid(a) + CountValid(b)
    decreases |b|
  {
    if |b| > 0 {
      assert (a + b)[..|a + b| - 1] == a + b[..|b| - 1];
      assert (a + b)[|a + b| - 1] == b[|b| - 1];
      CountValidAppend(a, b[..|b| - 1]);
    } else {
      assert a + b == a;
    }
  }

  lemma ChunkOfPrefix(s: string, n: nat, ch: Chunk)
    requires n <= |s|
    requires ChunkOf(s[..n], ch)
    ensures ChunkOf(s, ch)
  {
    assert s[..n][ch.start..ch.end + 1] == s[ch.start..ch.end + 1];
  }

  lemma InertRun(s: string, from: nat, to: nat)
    requires from < to <= |s|
    requires Inert(s, from, to)
    ensures CountValid(s[from + 1..to]) == 0 && '=' !in s[from + 1..to]
  {
    var m := s[from + 1..to];
    forall u | 0 <= u < |m| ensures !IsValidChar(m[u]) && m[u] != '=' {
      assert m[u] == s[from + 1 + u];
    }
    CountValidZero(m);
  }

  lemma SingleValid(c: char)
    requires IsValidChar(c)
    ensures CountValid([c]) == 1 && c != '='
  {
    assert [c][..0] == [];
  }

  lemma SliceConcat(s: string, i: nat, j: nat, k: nat)
    requires i <= j <= k <= |s|
    ensures s[i..k] == s[i..j] + s[j..k]
  {}

  lemma GrowCount(s: string, start: nat, end: nat, i: nat)
    requires start <= end < i < |s|
    requires Inert(s, end, i) && IsValidChar(s[i])
    ensures CountValid(s[start..i + 1]) == CountValid(s[start..end + 1]) + 1
  {
    var a := s[start..end + 1];
    var m := s[end + 1..i];
    var last := s[i..i + 1];
    SliceConcat(s, start, end + 1, i);
    SliceConcat(s, start, i, i + 1);
    assert last == [s[i]];
    InertRun(s, end, i);
    SingleValid(s[i]);
    CountValidAppend(a + m, last);
    CountValidAppend(a, m);
  }

  lemma GrowClean(s: string, start: nat, end: nat, i: nat)
    requires start <= end < i < |s|
    requires Inert(s, end, i) && IsValidChar(s[i])
    requires '=' !in s[start..end + 1]
    ensures '=' !in s[start..i + 1]
  {
    SliceConcat(s, start, end + 1, i);
    SliceConcat(s, start, i, i + 1);
    assert s[i..i + 1] == [s[i]];
    InertRun(s, end, i);
    SingleValid(s[i]);
  }

  /** A chunk followed by inert characters and then a valid one grows to include it. */
  lemma GrowChunk(s: string, ch: Chunk, i: nat)
    requires ch.end < i < |s|
    requires ChunkOf(s, ch)
    requires Inert(s, ch.end, i)
    requires IsValidChar(s[i])
    ensures ChunkOf(s, ch.(count := ch.count + 1, end := i))
  {
    GrowCount(s, ch.start, ch.end, i);
    GrowClean(s, ch.start, ch.end, i);
  }



  lemma ConsistentPrefix(s: string, n: nat, st: ScanState)
    requires n <= |s|
    requires Consistent(s[..n], st)
    ensures ConsistentUpTo(s, st, n)
  {
    forall k | 0 <= k < |st.chunks| ensures ChunkOf(s, st.chunks[k]) {
      ChunkOfPrefix(s, n, st.chunks[k]);
    }
    if st.open.Some? {
      ChunkOfPrefix(s, n, st.open.value);
      forall u | st.open.value.end < u < n && 0 <= u ensures !IsValidChar(s[u]) && s[u] != '=' {
        assert s[..n][u] == s[u];
      }
    }
  }

  lemma ChunksLater(s: string, chunks: seq<Chunk>, n: nat)
    requires n < |s| && ChunksUpTo(s, chunks, n)
    ensures ChunksUpTo(s, chunks, n + 1)
  {}

  lemma StepOpens(s: string, n: nat, st: ScanState)
    requires n < |s| && IsValidChar(s[n]) && st.open.None?
    requires ConsistentUpTo(s, st, n)
    ensures ConsistentUpTo(s, ScanStep(st, n, s[n]), n + 1)
  {
    assert s[n..n + 1] == [s[n]];
    SingleValid(s[n]);
    assert ChunkOf(s, Chunk(n, 1, n));
    ChunksLater(s, st.chunks, n);
  }

  lemma StepGrows(s: string, n: nat, st: ScanState)
    requires n < |s| && IsValidChar(s[n]) && st.open.Some?
    requires ConsistentUpTo(s, st, n)
    ensures ConsistentUpTo(s, ScanStep(st, n, s[n]), n + 1)
  {
    var ch := st.open.value;
    GrowChunk(s, ch, n);
    ChunksLater(s, st.chunks, n);
    var next := ScanStep(st, n, s[n]);
    assert next == ScanState(st.chunks, Some(ch.(count := ch.count + 1, end := n)));
  }

  lemma StepCloses(s: string, n: nat, st: ScanState)
    requires n < |s| && s[n] == '=' && st.open.Some?
    requires ConsistentUpTo(s, st, n)
    ensures ConsistentUpTo(s, ScanStep(st, n, s[n]), n + 1)
  {
    assert !IsValidChar(s[n]);
    var chunks := st.chunks + [st.open.value];
    assert ScanStep(st, n, s[n]) == ScanState(chunks, None);
    ChunksLater(s, st.chunks, n);
    assert ChunksUpTo(s, chunks, n + 1) by {
      forall k | 0 <= k < |chunks| ensures ChunkOf(s, chunks[k]) && chunks[k].end < n + 1 {
        if k < |st.chunks| {
          assert chunks[k] == st.chunks[k];
        }
      }
    }
    assert Ordered(chunks) by {
      forall k | 0 < k < |chunks| ensures chunks[k - 1].end < chunks[k].start {
        if k < |st.chunks| {
          assert chunks[k] == st.chunks[k] && chunks[k - 1] == st.chunks[k - 1];
        }
      }
    }
  }

  lemma StepSkips(s: string, n: nat, st: ScanState)
    requires n < |s| && !IsValidChar(s[n]) && (s[n] != '=' || st.open.None?)
    requires ConsistentUpTo(s, st, n)
    ensures ConsistentUpTo(s, ScanStep(st, n, s[n]), n + 1)
  {
    assert ScanStep(st, n, s[n]) == st;
    ChunksLater(s, st.chunks, n);
    if st.open.Some? {
      InertExtends(s, st.open.value.end, n);
    }
  }

  lemma InertExtends(s: string, from: int, n: nat)
    requires n < |s| && from < n
    requires Inert(s, from, n)
    requires !IsValidChar(s[n]) && s[n] != '='
    ensures Inert(s, from, n + 1)
  {}

  /** The scan keeps its state consistent with the string read so far. */
  lemma {:induction false} ScanWellFormed(s: string)
    ensures Consistent(s, Scan(s))
    decreases |s|
  {
    if |s| > 0 {
      var n := |s| - 1;
      var st := Scan(s[..n]);
      ScanWellFormed(s[..n]);
      ConsistentPrefix(s, n, st);
      assert Scan(s) == ScanStep(st, n, s[n]);
      if IsValidChar(s[n]) {
        if st.open.None? {
          StepOpens(s, n, st);
        } else {
          StepGrows(s, n, st);
        }
      } else if s[n] == '=' && st.open.Some? {
        StepCloses(s, n, st);
      } else {
        StepSkips(s, n, st);
      }
    }
  }

  /** The valid characters counted by the chunks. */
  function SumCounts(chunks: seq<Chunk>): nat {
    if |chunks| == 0 then 0 else SumCounts(chunks[..|chunks| - 1]) + chunks[|chunks| - 1].count
  }

  /** The valid characters counted by the emitted chunks and the open one. */
  function Counted(st: ScanState): nat {
    SumCounts(st.chunks) + (if st.open.Some? then st.open.value.count else 0)
  }

  /**
   * Every valid character is counted, by exactly one chunk: a chunk opens at
   * the first valid character after the previous chunk was closed, and none
   * is skipped.
   */
  lemma {:induction false} CountsCoverValid(s: string)
    ensures Counted(Scan(s)) == CountValid(s)
    decreases |s|
  {
    if |s| > 0 {
      var n := |s| - 1;
      var st := Scan(s[..n]);
      CountsCoverValid(s[..n]);
      if !IsValidChar(s[n]) && s[n] == '=' && st.open.Some? {
        var chunks := st.chunks + [st.open.value];
        assert chunks[..|chunks| - 1] == st.chunks;
      }
    }
  }

  /** A step emits a chunk only on `=`, and then exactly the chunk that was open. */
  lemma EmitsOnlyOnTerminator(st: ScanState, i: nat, c: char)
    ensures var next := ScanStep(st, i, c);
            next.chunks == st.chunks
            || (c == '=' && st.open.Some? && next.chunks == st.chunks + [st.open.value] && next.open.None?)
  {}

  /** Every chunk `extractChunks` returns counts at least one and at most all of its characters. */
  lemma ChunkCounts(s: string, k: int)
    requires 0 <= k < |ExtractChunks(s)|
    ensures var ch := ExtractChunks(s)[k];
            ChunkOf(s, ch) && 1 <= ch.count <= ch.end - ch.start + 1
  {
    ScanWellFormed(s);
    var ch := ExtractChunks(s)[k];
    var run := s[ch.start..ch.end + 1];
    assert run[0] == s[ch.start];
    CountValidZero(run);
  }

  /** A tail without `=` can open or grow a chunk but never emits one. */
  lemma {:induction false} UnterminatedTailIgnored(s: string, t: string)
    requires '=' !in t
    ensures ExtractChunks(s + t) == ExtractChunks(s)
    decreases |t|
  {
    if |t| > 0 {
      var t' := t[..|t| - 1];
      assert (s + t)[..|s + t| - 1] == s + t';
      assert (s + t)[|s + t| - 1] == t[|t| - 1];
      assert t[|t| - 1] in t;
      UnterminatedTailIgnored(s, t');
    } else {
      assert s + t == s;
    }
  }

  /** Once no chunk is open, further `=` characters change nothing. */
  lemma {:induction false} StrayTerminatorsIgnored(s: string, r: string)
    requires Scan(s).open.None?
    requires forall u :: 0 <= u < |r| ==> r[u] == '='
    ensures Scan(s + r) == Scan(s)
    decreases |r|
  {
    if |r| > 0 {
      var r' := r[..|r| - 1];
      assert (s + r)[..|s + r| - 1] == s + r';
      assert (s + r)[|s + r| - 1] == r[|r| - 1];
      StrayTerminatorsIgnored(s, r');
    } else {
      assert s + r == s;
    }
  }

  /** A non-empty string of valid characters is one open chunk covering all of it. */
  lemma {:induction false} ValidRunIsOneChunk(v: string)
    requires |v| > 0
    requires forall u :: 0 <= u < |v| ==> IsValidChar(v[u])
    ensures Scan(v) == ScanState([], Some(Chunk(0, |v|, |v| - 1)))
    decreases |v|
  {
    if |v| > 1 {
      ValidRunIsOneChunk(v[..|v| - 1]);
    }
  }

  /** A non-empty run of valid characters closed by `=` is extracted as exactly one chunk. */
  lemma TerminatedRun(v: string, r: string)
    requires |v| > 0
    requires forall u :: 0 <= u < |v| ==> IsValidChar(v[u])
    requires forall u :: 0 <= u < |r| ==> r[u] == '='
    ensures ExtractChunks(v + "=" + r) == [Chunk(0, |v|, |v| - 1)]
  {
    ValidRunIsOneChunk(v);
    assert (v + "=")[..|v|] == v;
    StrayTerminatorsIgnored(v + "=", r);
  }

  // ---------------------------------------------------------------------
  // Composition
  // ---------------------------------------------------------------------

  function ShiftChunk(ch: Chunk, offset: nat): Chunk {
    Chunk(ch.start + offset, ch.count, ch.end + offset)
  }

  function ShiftChunks(cs: seq<Chunk>, offset: nat): (r: seq<Chunk>)
    ensures |r| == |cs|
  {
    seq(|cs|, k requires 0 <= k < |cs| => ShiftChunk(cs[k], offset))
  }

  /** The state of scanning `t` after a prefix of `offset` characters that left `chunks` and nothing open. */
  function Resume(chunks: seq<Chunk>, st: ScanState, offset: nat): ScanState {
    ScanState(chunks + ShiftChunks(st.chunks, offset),
              if st.open.None? then None else Some(ShiftChunk(st.open.value, offset)))
  }

  lemma ResumeStep(chunks: seq<Chunk>, st: ScanState, offset: nat, i: nat, c: char)
    ensures ScanStep(Resume(chunks, st, offset), offset + i, c)
         == Resume(chunks, ScanStep(st, i, c), offset)
  {
    if !IsValidChar(c) && c == '=' && st.open.Some? {
      assert ShiftChunks(st.chunks + [st.open.value], offset)
          == ShiftChunks(st.chunks, offset) + [ShiftChunk(st.open.value, offset)];
    }
  }

  /**
   * Once the scan of `s` has no chunk open, the rest of the string is
   * scanned as if on its own: its chunks follow those of `s`, shifted by `|s|`.
   */
  lemma {:induction false} ScanAppend(s: string, t: string)
    requires Scan(s).open.None?
    ensures Scan(s + t) == Resume(Scan(s).chunks, Scan(t), |s|)
    decreases |t|
  {
    if |t| == 0 {
      assert s + t == s;
      assert Scan(s).chunks + ShiftChunks([], |s|) == Scan(s).chunks;
    } else {
      var t' := t[..|t| - 1];
      assert (s + t)[..|s + t| - 1] == s + t';
      ScanAppend(s, t');
      ResumeStep(Scan(s).chunks, Scan(t'), |s|, |t| - 1, t[|t| - 1]);
    }
  }
}
