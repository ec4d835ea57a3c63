/**
 The sentinel matcher that an interpreter's output drain runs over the child's
 combined stdout/stderr, one character at a time.

 The matcher holds a tentative run `start` that is a prefix of the marker.
 A character that keeps the run a prefix is held back; a character that makes
 the run the whole marker discards it and clears `running`; a character that
 breaks the prefix sends the whole run, breaking character included, to the
 output queue as one chunk. The empty run stands for the source's `None`.

 `Step` and `Run` specify the matcher; `Segment` is an independent,
 front-to-back description of the same cut of the input into chunks and
 recognised markers, and `RunIsSegment` proves the two agree.
 */
module Matcher {

  /** One of the 52 characters of `string.ascii_letters`. */
  predicate IsAsciiLetter(c: char) {
    'a' <= c <= 'z' || 'A' <= c <= 'Z'
  }

  /** The shape of the marker: the three characters ~`; followed by 29 ASCII letters. */
  predicate IsMagic(magic: string) {
    && |magic| == 32
    && magic[..3] == "~`;"
    && forall i :: 3 <= i < |magic| ==> IsAsciiLetter(magic[i])
  }

  /** What the matcher may hold between two characters: nothing, or a non-empty proper prefix of the marker. */
  predicate IsHeldRun(magic: string, start: string) {
    start == [] || start < magic
  }

  /** What the matcher may enqueue: a run whose every proper prefix is a prefix of the marker but which is not one itself. */
  predicate IsChunk(magic: string, chunk: string) {
    chunk != [] && chunk[..|chunk| - 1] < magic && !(chunk <= magic)
  }

  /** `"".join(chunks)`. */
  function Concat(chunks: seq<string>): (text: string) {
    if chunks == [] then [] else chunks[0] + Concat(chunks[1..])
  }

  lemma {:induction false} ConcatAppend(a: seq<string>, b: seq<string>)
    ensures Concat(a + b) == Concat(a) + Concat(b)
    decreases |a|
  {
    if a == [] {
      assert a + b == b;
    } else {
      assert (a + b)[1..] == a[1..] + b;
      ConcatAppend(a[1..], b);
    }
  }

  /** The matcher's state: the held run, the output queue and the interpreter's `running` flag. */
  datatype MatchState = MatchState(start: string, queue: seq<string>, running: bool)

  /** One pass of the loop body for the character `c`. */
  function Step(magic: string, st: MatchState, c: char): (r: MatchState)
    ensures st.queue <= r.queue && |r.queue| <= |st.queue| + 1
  {
    var run := st.start + [c];
    if run <= magic then
      if run == magic then MatchState([], st.queue, false)
      else MatchState(run, st.queue, st.running)
    else MatchState([], st.queue + [run], st.running)
  }

  /**
   What one character does: the queue only grows, and only by the broken run
   with its breaking character; completing the marker enqueues nothing, drops
   the run and clears `running`; no other step touches `running` or loses a
   character; the held run stays a proper prefix of the marker, and what leaves
   is a chunk.
   */
  lemma StepSpec(magic: string, st: MatchState, c: char)
    ensures var r := Step(magic, st, c);
            && (r.queue == st.queue || r.queue == st.queue + [st.start + [c]])
            && (r.queue != st.queue ==> r.start == [] && !(st.start + [c] <= magic))
            && (st.start + [c] == magic ==> r.start == [] && r.queue == st.queue && !r.running)
            && (st.start + [c] != magic ==> r.running == st.running)
            && (st.start + [c] != magic ==> Concat(r.queue[|st.queue|..]) + r.start == st.start + [c])
            && (IsHeldRun(magic, st.start) ==> IsHeldRun(magic, r.start))
            && (magic != [] && IsHeldRun(magic, st.start) && r.queue != st.queue
                ==> IsChunk(magic, r.queue[|st.queue|]))
  {
    var run := st.start + [c];
    if !(run <= magic) {
      assert Concat([run]) == run + Concat([]);
      assert run[..|run| - 1] == st.start;
    }
  }

  /** The loop over a finite stream `s`, started from `st`. */
  function Run(magic: string, st: MatchState, s: string): (r: MatchState)
    decreases |s|
  {
    if s == [] then st else Step(magic, Run(magic, st, s[..|s| - 1]), s[|s| - 1])
  }

  /**
   Between characters the held run is empty or a proper prefix of the marker,
   the queue is only appended to, every appended entry is a chunk, and
   `running` is never set.
   */
  lemma {:induction false} RunKeepsShape(magic: string, st: MatchState, s: string)
    requires magic != [] && IsHeldRun(magic, st.start)
    ensures var r := Run(magic, st, s);
            && IsHeldRun(magic, r.start)
            && st.queue <= r.queue
            && (forall i :: |st.queue| <= i < |r.queue| ==> IsChunk(magic, r.queue[i]))
            && (r.running ==> st.running)
    decreases |s|
  {
    if s != [] {
      RunKeepsShape(magic, st, s[..|s| - 1]);
      StepSpec(magic, Run(magic, st, s[..|s| - 1]), s[|s| - 1]);
    }
  }

  lemma {:induction false} RunAppend(magic: string, st: MatchState, a: string, b: string)
    ensures Run(magic, st, a + b) == Run(magic, Run(magic, st, a), b)
    decreases |b|
  {
    if b == [] {
      assert a + b == a;
    } else {
      var ab := a + b;
      assert ab[..|ab| - 1] == a + b[..|b| - 1];
      assert ab[|ab| - 1] == b[|b| - 1];
      RunAppend(magic, st, a, b[..|b| - 1]);
    }
  }

  /** Feeding a proper prefix of the marker from an empty run holds all of it back. */
  lemma {:induction false} RunHeld(magic: string, queue: seq<string>, running: bool, p: string)
    requires p < magic
    ensures Run(magic, MatchState([], queue, running), p) == MatchState(p, queue, running)
    decreases |p|
  {
    if p != [] {
      var front := p[..|p| - 1];
      assert front < magic;
      RunHeld(magic, queue, running, front);
      assert front + [p[|p| - 1]] == p;
      assert p <= magic && p != magic;
    }
  }

  /** The marker fed from an empty run is recognised: nothing is enqueued and `running` is cleared. */
  lemma {:induction false} MarkerRecognised(magic: string, queue: seq<string>, running: bool)
    requires magic != []
    ensures Run(magic, MatchState([], queue, running), magic) == MatchState([], queue, false)
  {
    var front := magic[..|magic| - 1];
    RunHeld(magic, queue, running, front);
    assert front + [magic[|magic| - 1]] == magic;
  }

  /** Length of the longest common prefix of the marker and `s`. */
  function MatchLength(magic: string, s: string): (n: nat)
    ensures n <= |magic| && n <= |s|
  {
    if magic == [] || s == [] || magic[0] != s[0] then 0
    else 1 + MatchLength(magic[1..], s[1..])
  }

  /** `MatchLength` is the length of a common prefix that cannot be extended. */
  lemma {:induction false} MatchLengthIsCommonPrefix(magic: string, s: string)
    ensures var n := MatchLength(magic, s);
            && magic[..n] == s[..n]
            && (n < |magic| && n < |s| ==> magic[n] != s[n])
  {
    if magic != [] && s != [] && magic[0] == s[0] {
      MatchLengthIsCommonPrefix(magic[1..], s[1..]);
      var n := MatchLength(magic, s);
      assert magic[..n] == [magic[0]] + magic[1..][..n - 1];
      assert s[..n] == [s[0]] + s[1..][..n - 1];
    }
  }

  /** One piece of the input: a chunk that reaches the queue, or a recognised marker. */
  datatype Piece = Chunk(text: string) | Marker

  /**
   The input cut front to back: a marker wherever the input, from the current
   restart point, begins with the whole marker; otherwise the longest prefix
   shared with the marker plus the one character that breaks it; a tail that is
   still a proper prefix of the marker is what remains held.
   */
  function Segment(magic: string, s: string): (r: (seq<Piece>, string))
    requires magic != []
    decreases |s|
  {
    var n := MatchLength(magic, s);
    if n == |magic| then
      var rest := Segment(magic, s[n..]);
      ([Marker] + rest.0, rest.1)
    else if n == |s| then
      ([], s)
    else
      var rest := Segment(magic, s[n + 1..]);
      ([Chunk(s[..n + 1])] + rest.0, rest.1)
  }

  /** The pieces written out, with `marker` standing for each recognised marker. */
  function Text(pieces: seq<Piece>, marker: string): (text: string) {
    if pieces == [] then []
    else (match pieces[0] case Chunk(t) => t case Marker => marker) + Text(pieces[1..], marker)
  }

  /** The chunks among the pieces, in order. */
  function Chunks(pieces: seq<Piece>): (chunks: seq<string>)
    ensures |chunks| <= |pieces|
  {
    if pieces == [] then []
    else (if pieces[0].Chunk? then [pieces[0].text] else []) + Chunks(pieces[1..])
  }

  /** The cut loses, duplicates and reorders nothing: pieces and held tail spell the input. */
  lemma {:induction false} SegmentSpellsInput(magic: string, s: string)
    requires magic != []
    ensures Text(Segment(magic, s).0, magic) + Segment(magic, s).1 == s
    decreases |s|
  {
    var n := MatchLength(magic, s);
    if n == |magic| || n < |s| {
      var k := if n == |magic| then n else n + 1;
      var piece := if n == |magic| then Marker else Chunk(s[..k]);
      var rest := Segment(magic, s[k..]);
      assert Segment(magic, s) == ([piece] + rest.0, rest.1);
      assert Text([piece], magic) == s[..k] by {
        MatchLengthIsCommonPrefix(magic, s);
      }
      SegmentSpellsInput(magic, s[k..]);
      SpellPrepend(piece, rest.0, rest.1, magic, s, k);
    }
  }

  /** A piece spelling the first `k` characters of `s` put in front of pieces spelling the others. */
  lemma SpellPrepend(piece: Piece, rest: seq<Piece>, held: string, marker: string, s: string, k: nat)
    requires k <= |s| && Text([piece], marker) == s[..k] && Text(rest, marker) + held == s[k..]
    ensures Text([piece] + rest, marker) + held == s
  {
    TextAppend([piece], rest, marker);
    assert s[..k] + s[k..] == s;
  }

  lemma {:induction false} TextAppend(a: seq<Piece>, b: seq<Piece>, marker: string)
    ensures Text(a + b, marker) == Text(a, marker) + Text(b, marker)
    decreases |a|
  {
    if a == [] {
      assert a + b == b;
    } else {
      assert (a + b)[1..] == a[1..] + b;
      TextAppend(a[1..], b, marker);
    }
  }

  /** The queued text is the pieces written out with every recognised marker deleted. */
  lemma {:induction false} ChunksAreTextWithoutMarkers(pieces: seq<Piece>)
    ensures Concat(Chunks(pieces)) == Text(pieces, [])
    decreases |pieces|
  {
    if pieces != [] {
      ChunksAreTextWithoutMarkers(pieces[1..]);
      var head := if pieces[0].Chunk? then [pieces[0].text] else [];
      ConcatAppend(head, Chunks(pieces[1..]));
      assert Concat(head) == Text([pieces[0]], []) by {
        assert pieces[0].Chunk? ==> Concat(head) == pieces[0].text + Concat([]);
      }
    }
  }

  /** Without recognised markers, what stands in for a marker does not matter. */
  lemma {:induction false} TextWithoutMarkers(pieces: seq<Piece>, a: string, b: string)
    requires Marker !in pieces
    ensures Text(pieces, a) == Text(pieces, b)
    decreases |pieces|
  {
    if pieces != [] {
      assert pieces[0] != Marker;
      assert forall p :: p in pieces[1..] ==> p in pieces;
      TextWithoutMarkers(pieces[1..], a, b);
    }
  }

  /**
   The character-at-a-time matcher and the front-to-back cut agree: from an
   empty run, the matcher ends holding the cut's tail, has enqueued exactly the
   cut's chunks, and has cleared `running` exactly when a marker was recognised.
   */
  lemma {:induction false} RunIsSegment(magic: string, queue: seq<string>, running: bool, s: string)
    requires magic != []
    ensures var cut := Segment(magic, s);
            Run(magic, MatchState([], queue, running), s)
              == MatchState(cut.1, queue + Chunks(cut.0), running && Marker !in cut.0)
    decreases |s|
  {
    var n := MatchLength(magic, s);
    var st := MatchState([], queue, running);
    if n == |magic| || n < |s| {
      var k := if n == |magic| then n else n + 1;
      var piece := if n == |magic| then Marker else Chunk(s[..k]);
      var rest := Segment(magic, s[k..]);
      assert Segment(magic, s) == ([piece] + rest.0, rest.1);
      // the first piece moves the matcher from `st` to an empty run again
      var head := if piece.Chunk? then [piece.text] else [];
      var mid := MatchState([], queue + head, running && !piece.Marker?);
      assert Run(magic, st, s[..k]) == mid by {
        MatchLengthIsCommonPrefix(magic, s);
        if n == |magic| {
          assert s[..k] == magic;
          MarkerRecognised(magic, queue, running);
        } else {
          RunBreaks(magic, queue, running, s);
        }
      }
      assert Run(magic, st, s) == Run(magic, mid, s[k..]) by {
        assert s == s[..k] + s[k..];
        RunAppend(magic, st, s[..k], s[k..]);
      }
      RunIsSegment(magic, mid.queue, mid.running, s[k..]);
      ResumeAfterPiece(piece, rest.0, rest.1, queue, running);
    } else {
      MatchLengthIsCommonPrefix(magic, s);
      assert s < magic by {
        assert s == s[..n];
      }
      RunHeld(magic, queue, running, s);
    }
  }

  /** A run broken after `MatchLength` characters leaves as one chunk, breaking character included. */
  lemma RunBreaks(magic: string, queue: seq<string>, running: bool, s: string)
    requires MatchLength(magic, s) < |magic| && MatchLength(magic, s) < |s|
    ensures var n := MatchLength(magic, s);
            Run(magic, MatchState([], queue, running), s[..n + 1])
              == MatchState([], queue + [s[..n + 1]], running)
  {
    var n := MatchLength(magic, s);
    var chunk := s[..n + 1];
    MatchLengthIsCommonPrefix(magic, s);
    assert s[..n] < magic;
    RunHeld(magic, queue, running, s[..n]);
    assert chunk[..n] == s[..n];
    assert chunk == s[..n] + [s[n]];
  }

  /** The matcher state after the first piece and the rest, as a state after all the pieces. */
  lemma ResumeAfterPiece(piece: Piece, rest: seq<Piece>, held: string, queue: seq<string>, running: bool)
    ensures var head := if piece.Chunk? then [piece.text] else [];
            MatchState(held, (queue + head) + Chunks(rest), (running && !piece.Marker?) && Marker !in rest)
              == MatchState(held, queue + Chunks([piece] + rest), running && Marker !in [piece] + rest)
  {
    ChunksCons(piece, rest);
  }

  /** `Chunks` and marker membership of a piece put in front. */
  lemma ChunksCons(piece: Piece, rest: seq<Piece>)
    ensures Chunks([piece] + rest) == (if piece.Chunk? then [piece.text] else []) + Chunks(rest)
    ensures Marker in [piece] + rest <==> piece == Marker || Marker in rest
  {
    assert ([piece] + rest)[1..] == rest;
  }

  /**
   Order and content: after feeding `s` from an empty run, the queue has grown by
   exactly the input with every recognised marker deleted, save the still-held
   run; putting the markers back in gives the input itself; and `running` was
   cleared exactly when a marker was recognised.
   */
  lemma OrderAndContent(magic: string, queue: seq<string>, running: bool, s: string)
    requires magic != []
    ensures var r := Run(magic, MatchState([], queue, running), s);
            var pieces := Segment(magic, s).0;
            && Concat(r.queue) == Concat(queue) + Text(pieces, [])
            && Text(pieces, magic) + r.start == s
            && r.running == (running && Marker !in pieces)
  {
    var cut := Segment(magic, s);
    RunIsSegment(magic, queue, running, s);
    ConcatAppend(queue, Chunks(cut.0));
    ChunksAreTextWithoutMarkers(cut.0);
    SegmentSpellsInput(magic, s);
  }

  /**
   No chunk the matcher enqueues is the marker, and none is longer than it, so
   none contains it.
   */
  lemma ChunkHoldsNoMarker(magic: string, chunk: string)
    requires IsChunk(magic, chunk)
    ensures |chunk| <= |magic| && chunk != magic
  {
  }

  /** Input in which no character can open a match is cut into one-character chunks. */
  lemma {:induction false} SegmentWithoutOpener(magic: string, s: string)
    requires magic != []
    requires forall i :: 0 <= i < |s| ==> s[i] != magic[0]
    ensures Marker !in Segment(magic, s).0 && Segment(magic, s).1 == []
    ensures |Segment(magic, s).0| == |s|
    ensures forall i :: 0 <= i < |s| ==> Segment(magic, s).0[i] == Chunk([s[i]])
    decreases |s|
  {
    if s != [] {
      assert MatchLength(magic, s) == 0;
      var rest := Segment(magic, s[1..]);
      SegmentWithoutOpener(magic, s[1..]);
      assert s[..1] == [s[0]];
      assert Segment(magic, s).0 == [Chunk([s[0]])] + rest.0;
      forall i | 1 <= i < |s|
        ensures s[i] == s[1..][i - 1]
      {
      }
    }
  }

  /**
   The matcher is not KMP: after a mismatch it does not look at the breaking
   character again. A "~" that opens a partial match just before the marker
   hides that marker: "~~" leaves as one chunk, the rest of the marker follows
   one character per chunk, `running` is untouched and nothing is held.
   */
  lemma NotKmp(magic: string, queue: seq<string>, running: bool)
    requires IsMagic(magic)
    ensures var r := Run(magic, MatchState([], queue, running), "~" + magic);
            && r.running == running
            && r.start == []
            && |r.queue| == |queue| + |magic|
            && r.queue[|queue|] == "~~"
            && (forall k :: 1 <= k < |magic| ==> r.queue[|queue| + k] == [magic[k]])
            && Concat(r.queue) == Concat(queue) + "~" + magic
  {
    var s := "~" + magic;
    var cut := Segment(magic, s);
    var r := Run(magic, MatchState([], queue, running), s);
    TildeMagicCut(magic);
    RunIsSegment(magic, queue, running, s);
    assert r.queue == queue + Chunks(cut.0);
    assert |r.queue| == |queue| + |magic| && r.queue[|queue|] == "~~" by {
      ChunksCount(cut.0);
    }
    assert forall k :: 1 <= k < |magic| ==> r.queue[|queue| + k] == [magic[k]] by {
      ChunksCount(cut.0);
      forall k | 1 <= k < |magic|
        ensures r.queue[|queue| + k] == [magic[k]]
      {
        assert r.queue[|queue| + k] == Chunks(cut.0)[k] == cut.0[k].text;
      }
    }
    assert Concat(r.queue) == Concat(queue) + s by {
      ConcatAppend(queue, Chunks(cut.0));
      ChunksAreTextWithoutMarkers(cut.0);
      TextWithoutMarkers(cut.0, [], magic);
      SegmentSpellsInput(magic, s);
      assert Text(cut.0, magic) == s;
    }
    assert Concat(queue) + s == Concat(queue) + "~" + magic;
  }

  /** How "~" followed by the marker is cut: "~~", then every other character of the marker on its own. */
  lemma TildeMagicCut(magic: string)
    requires IsMagic(magic)
    ensures var cut := Segment(magic, "~" + magic);
            && Marker !in cut.0
            && cut.1 == []
            && |cut.0| == |magic|
            && cut.0[0] == Chunk("~~")
            && forall k :: 1 <= k < |magic| ==> cut.0[k] == Chunk([magic[k]])
  {
    var s := "~" + magic;
    assert magic[0] == magic[..3][0] == '~';
    assert magic[1] == magic[..3][1] == '`';
    MatchLengthIsCommonPrefix(magic, s);
    assert MatchLength(magic, s) == 1 by {
      assert s[1] == '~';
    }
    var tail := s[2..];
    forall i | 0 <= i < |tail|
      ensures tail[i] != magic[0]
    {
      assert tail[i] == magic[i + 1];
      if i + 1 == 2 {
        assert magic[2] == magic[..3][2];
      } else if i + 1 >= 3 {
        assert IsAsciiLetter(magic[i + 1]);
      }
    }
    SegmentWithoutOpener(magic, tail);
    var rest := Segment(magic, tail);
    assert Segment(magic, s) == ([Chunk(s[..2])] + rest.0, rest.1);
    assert s[..2] == "~~";
    assert ([Chunk(s[..2])] + rest.0)[1..] == rest.0;
    forall k | 1 <= k < |magic|
      ensures Segment(magic, s).0[k] == Chunk([magic[k]])
    {
      assert Segment(magic, s).0[k] == rest.0[k - 1] == Chunk([tail[k - 1]]);
      assert tail[k - 1] == s[k + 1] == magic[k];
    }
  }

  /** Without recognised markers, every piece reaches the queue, in its place. */
  lemma {:induction false} ChunksCount(pieces: seq<Piece>)
    requires Marker !in pieces
    ensures |Chunks(pieces)| == |pieces|
    ensures forall k :: 0 <= k < |pieces| ==> Chunks(pieces)[k] == pieces[k].text
    decreases |pieces|
  {
    if pieces != [] {
      assert pieces[0] != Marker && Marker !in pieces[1..];
      ChunksCount(pieces[1..]);
      forall k | 1 <= k < |pieces|
        ensures Chunks(pieces)[k] == pieces[k].text
      {
        assert Chunks(pieces)[k] == Chunks(pieces[1..])[k - 1];
        assert pieces[k] == pieces[1..][k - 1];
      }
    }
  }
}
