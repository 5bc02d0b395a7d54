/** Overlapping windows over a sequence of lines or tokens. */
module Windows {
  /** A window with the pages that its elements come from. */
  datatype PagedWindow<T> = PagedWindow(window: seq<T>, pages: set<int>)

  datatype Chunks<T> = Chunks(chunks: seq<PagedWindow<T>>) | ZeroStep

  function Min(a: int, b: int): int {
    if a < b then a else b
  }

  /** Up to `size` elements of `s` from position `i` on. */
  function Window<T>(s: seq<T>, i: nat, size: nat): seq<T>
    requires i <= |s|
  {
    s[i..Min(i + size, |s|)]
  }

  /** Where window `k` starts: `k` steps in. */
  function Start(k: nat, step: nat): nat {
    if k == 0 then 0 else Start(k - 1, step) + step
  }

  lemma {:induction false} StartMeaning(k: nat, step: nat)
    ensures Start(k, step) == k * step
  {
    if k > 0 { StartMeaning(k - 1, step); }
  }

  lemma {:induction false} StartMonotone(a: nat, b: nat, step: nat)
    requires a <= b
    ensures Start(a, step) <= Start(b, step)
    ensures a < b ==> Start(a, step) + step <= Start(b, step)
    decreases b
  {
    if a < b { StartMonotone(a, b - 1, step); }
  }

  /** `w` is cut from `s` at position `i`: `size` elements, or as many as are left. */
  ghost predicate IsCut<T>(s: seq<T>, i: int, size: nat, w: seq<T>) {
    && 0 <= i <= |s| && |w| == (if |s| - i < size then |s| - i else size)
    && forall j :: 0 <= j < |w| ==> w[j] == s[i + j]
  }

  lemma CutIsWindow<T>(s: seq<T>, i: nat, size: nat, w: seq<T>)
    requires i <= |s|
    ensures IsCut(s, i, size, w) <==> w == Window(s, i, size)
  {
  }

  /** Chunk `k` is cut from the lines at `k` steps, and has exactly its elements' pages. */
  ghost predicate WindowAt<T>(s: seq<T>, pageOf: seq<int>, size: nat, step: nat, chunks: seq<PagedWindow<T>>,
                                    k: nat)
    requires |pageOf| == |s|
  {
    && k < |chunks| && Start(k, step) < |s| && IsCut(s, Start(k, step), size, chunks[k].window)
    && forall page :: page in chunks[k].pages <==> PageFrom(pageOf, Start(k, step), size, page)
  }

  predicate PageFrom(pageOf: seq<int>, i: int, size: nat, page: int) {
    exists j :: i <= j < i + size && 0 <= j < |pageOf| && pageOf[j] == page
  }

  /** There is one window for every start within `s`. */
  ghost predicate Slides<T>(s: seq<T>, pageOf: seq<int>, size: nat, step: nat, chunks: seq<PagedWindow<T>>)
    requires |pageOf| == |s|
  {
    && (forall k: nat {:trigger WindowAt(s, pageOf, size, step, chunks, k)} ::
          k < |chunks| ==> WindowAt(s, pageOf, size, step, chunks, k))
    && |s| <= Start(|chunks|, step)
  }

  /** The loop `range(0, len(s), size - overlap)`: it refuses a zero step and does nothing
      for a negative one. */
  method Slide<T>(s: seq<T>, pageOf: seq<int>, size: nat, overlap: nat) returns (r: Chunks<T>)
    requires |pageOf| == |s|
    ensures size == overlap ==> r == ZeroStep
    ensures size < overlap ==> r == Chunks([])
    ensures overlap < size ==> r.Chunks? && Slides(s, pageOf, size, size - overlap, r.chunks)
  {
    var step := size - overlap;
    if step == 0 { return ZeroStep; }
    if step < 0 { return Chunks([]); }
    var i, chunks := 0, [];
    while i < |s|
      invariant i == Start(|chunks|, step)
      invariant forall k: nat {:trigger WindowAt(s, pageOf, size, step, chunks, k)} ::
        k < |chunks| ==> WindowAt(s, pageOf, size, step, chunks, k)
      decreases |s| - i
    {
      ghost var before := chunks;
      var end := Min(i + size - 1, |pageOf| - 1);
      CutIsWindow(s, i, size, Window(s, i, size));
      chunks := chunks + [PagedWindow(Window(s, i, size), set j | i <= j <= end :: pageOf[j])];
      forall k: nat {:trigger WindowAt(s, pageOf, size, step, chunks, k)} | k < |chunks|
        ensures WindowAt(s, pageOf, size, step, chunks, k)
      {
        assert k < |before| ==> WindowAt(s, pageOf, size, step, before, k);
      }
      i := i + step;
    }
    return Chunks(chunks);
  }

  /** The first `step` elements of each of the first `n` windows, in order. */
  function Leading<T>(chunks: seq<PagedWindow<T>>, step: nat, n: nat): seq<T>
    requires n <= |chunks|
  {
    if n == 0 then []
    else Leading(chunks, step, n - 1) + chunks[n - 1].window[..Min(step, |chunks[n - 1].window|)]
  }

  lemma LeadOfWindow<T>(s: seq<T>, i: nat, size: nat, step: nat)
    requires i <= |s| && step <= size
    ensures var w := Window(s, i, size); s[..i] + w[..Min(step, |w|)] == s[..Min(i + step, |s|)]
  {
  }

  /** Nothing is lost, reordered or invented: the leading parts rebuild the input. */
  lemma {:induction false} LeadingRebuilds<T>(s: seq<T>, pageOf: seq<int>, size: nat, step: nat,
                                              chunks: seq<PagedWindow<T>>, n: nat)
    requires |pageOf| == |s| && 0 < step <= size && Slides(s, pageOf, size, step, chunks) && n <= |chunks|
    ensures Leading(chunks, step, n) == s[..Min(Start(n, step), |s|)]
  {
    if n > 0 {
      LeadingRebuilds(s, pageOf, size, step, chunks, n - 1);
      var i := Start(n - 1, step);
      assert WindowAt(s, pageOf, size, step, chunks, n - 1);
      CutIsWindow(s, i, size, chunks[n - 1].window);
      LeadOfWindow(s, i, size, step);
    }
  }

  lemma SlidesRebuild<T>(s: seq<T>, pageOf: seq<int>, size: nat, step: nat, chunks: seq<PagedWindow<T>>)
    requires |pageOf| == |s| && 0 < step <= size && Slides(s, pageOf, size, step, chunks)
    ensures Leading(chunks, step, |chunks|) == s
  {
    LeadingRebuilds(s, pageOf, size, step, chunks, |chunks|);
  }

  /** Window `k` reaches over the `m` elements from position `j` on. */
  predicate Reaches<T>(chunks: seq<PagedWindow<T>>, step: nat, k: int, j: nat, m: nat) {
    0 <= k < |chunks| && k * step <= j && j + m <= k * step + |chunks[k].window|
  }

  /** `m` consecutive elements share a window if and only if they start early enough
      within their step, so any `overlap + 1` consecutive elements do; and wherever a
      window reaches over them, they stand in it in order. */
  lemma ShareWindowExactlyWhen<T>(s: seq<T>, pageOf: seq<int>, size: nat, step: nat, chunks: seq<PagedWindow<T>>,
                                  q: nat, r: nat, j: nat, m: nat)
    requires |pageOf| == |s| && 0 < step <= size && Slides(s, pageOf, size, step, chunks)
    requires j == q * step + r && r < step && 0 < m && j + m <= |s|
    ensures (exists k :: Reaches(chunks, step, k, j, m)) <==> r + m <= size
    ensures m <= size - step + 1 ==> exists k :: Reaches(chunks, step, k, j, m)
    ensures forall k :: Reaches(chunks, step, k, j, m) ==>
              chunks[k].window[j - k * step..j - k * step + m] == s[j..j + m]
  {
    StartMeaning(q, step);
    StartMeaning(|chunks|, step);
    if |chunks| <= q { StartMonotone(|chunks|, q, step); }
    assert WindowAt(s, pageOf, size, step, chunks, q);
    assert r + m <= size ==> Reaches(chunks, step, q, j, m);
    forall k | Reaches(chunks, step, k, j, m)
      ensures r + m <= size && chunks[k].window[j - k * step..j - k * step + m] == s[j..j + m]
    {
      assert WindowAt(s, pageOf, size, step, chunks, k);
      StartMeaning(k, step);
      if k <= q { StartMonotone(k, q, step); } else { StartMonotone(q, k, step); }
    }
  }
}

/** Chunks cut at section headings, each carrying over the tail of the previous one. */
module Sections {
  /** What a heading says: the section's number and its title. */
  datatype Heading = NotHeading | Heading(section: string, title: string)

  /** A line of a kept page; a heading's text is already in its normalised form. */
  datatype Line = Line(text: string, heading: Heading, page: int)

  datatype Chunk = Chunk(lines: seq<Line>, heading: Heading, pages: set<int>)

  /** The last `overlap` lines of a chunk, as a negative slice takes them: all of them if
      there are fewer, and also if `overlap` is 0. */
  function Tail(chunk: seq<Line>, overlap: nat): seq<Line> {
    if overlap == 0 || |chunk| < overlap then chunk else chunk[|chunk| - overlap..]
  }

  function PagesOf(lines: seq<Line>): set<int> {
    set i | 0 <= i < |lines| :: lines[i].page
  }

  function HeadingOf(body: seq<Line>): Heading {
    if body == [] then NotHeading else body[0].heading
  }

  /** The input from the first heading on, cut before every heading. */
  function Bodies(lines: seq<Line>): seq<seq<Line>>
    decreases |lines|
  {
    if lines == [] then []
    else
      var before, l := Bodies(lines[..|lines| - 1]), lines[|lines| - 1];
      if l.heading.Heading? then before + [[l]]
      else if before == [] then []
      else before[..|before| - 1] + [before[|before| - 1] + [l]]
  }

  /** The chunks that bodies are turned into: each is put behind the previous one's tail. */
  function Carried(bodies: seq<seq<Line>>, overlap: nat): seq<Chunk>
    decreases |bodies|
  {
    if bodies == [] then []
    else
      var before := Carried(bodies[..|bodies| - 1], overlap);
      var body := bodies[|bodies| - 1];
      before + [Chunk(Carry(before, overlap) + body, HeadingOf(body), PagesOf(body))]
  }

  /** What the chunk after `chunks` starts with. */
  function Carry(chunks: seq<Chunk>, overlap: nat): seq<Line> {
    if chunks == [] then [] else Tail(chunks[|chunks| - 1].lines, overlap)
  }

  /** The last body is still being collected; the others are chunks already. */
  ghost predicate OpenChunk(bodies: seq<seq<Line>>, chunks: seq<Chunk>, current: seq<Line>, overlap: nat) {
    if current == [] then bodies == [] && chunks == []
    else bodies != [] && bodies[|bodies| - 1] == current && chunks == Carried(bodies[..|bodies| - 1], overlap)
  }

  lemma PagesOneMore(lines: seq<Line>, l: Line)
    ensures PagesOf(lines + [l]) == PagesOf(lines) + {l.page}
  {
    forall p ensures p in PagesOf(lines + [l]) <==> p in PagesOf(lines) || p == l.page {
      if p in PagesOf(lines) {
        var i :| 0 <= i < |lines| && lines[i].page == p;
        assert (lines + [l])[i] == lines[i];
      }
      assert (lines + [l])[|lines|] == l;
    }
  }

  method ChunkBySections(lines: seq<Line>, overlap: nat) returns (chunks: seq<Chunk>)
    ensures chunks == Carried(Bodies(lines), overlap)
  {
    chunks := [];
    var currentChunk: seq<Line>, currentPages: set<int>, previousTail: seq<Line> := [], {}, [];
    var currentHeading := NotHeading;
    for i := 0 to |lines|
      invariant previousTail == Carry(chunks, overlap) && currentPages == PagesOf(currentChunk)
      invariant currentHeading == HeadingOf(currentChunk)
      invariant OpenChunk(Bodies(lines[..i]), chunks, currentChunk, overlap)
    {
      var line := lines[i];
      assert lines[..i + 1][..i] == lines[..i];
      PagesOneMore(currentChunk, line);
      PagesOneMore([], line);
      if line.heading.Heading? {
        if currentChunk != [] {
          var whole := previousTail + currentChunk;
          chunks := chunks + [Chunk(whole, currentHeading, currentPages)];
          previousTail := Tail(whole, overlap);
        }
        assert [] + [line] == [line] && PagesOf([]) == {};
        currentChunk, currentHeading, currentPages := [line], line.heading, {line.page};
      } else if currentChunk != [] {
        currentChunk, currentPages := currentChunk + [line], currentPages + {line.page};
      }
    }
    assert lines[..|lines|] == lines;
    if currentChunk != [] {
      chunks := chunks + [Chunk(previousTail + currentChunk, currentHeading, currentPages)];
    }
  }

  function Concat(parts: seq<seq<Line>>): seq<Line>
    decreases |parts|
  {
    if parts == [] then [] else Concat(parts[..|parts| - 1]) + parts[|parts| - 1]
  }

  function FromFirstHeading(lines: seq<Line>): seq<Line>
    decreases |lines|
  {
    if lines == [] then [] else if lines[0].heading.Heading? then lines else FromFirstHeading(lines[1..])
  }

  /** What is left of chunk `k` when the lines carried into it are stripped again. */
  function Strip(chunks: seq<Chunk>, overlap: nat, k: nat): seq<Line>
    requires k < |chunks|
  {
    var n := |Carry(chunks[..k], overlap)|;
    if n <= |chunks[k].lines| then chunks[k].lines[n..] else []
  }

  function Stripped(chunks: seq<Chunk>, overlap: nat): seq<seq<Line>> {
    seq(|chunks|, k requires 0 <= k < |chunks| => Strip(chunks, overlap, k))
  }

  lemma {:induction false} CarriedAt(bodies: seq<seq<Line>>, overlap: nat, k: nat)
    requires k < |bodies|
    ensures var chunks := Carried(bodies, overlap);
            && |chunks| == |bodies| && chunks[k].lines == Carry(chunks[..k], overlap) + bodies[k]
            && chunks[k].heading == HeadingOf(bodies[k]) && chunks[k].pages == PagesOf(bodies[k])
    decreases |bodies|
  {
    var before := Carried(bodies[..|bodies| - 1], overlap);
    if |bodies| > 1 {
      CarriedAt(bodies[..|bodies| - 1], overlap, if k < |bodies| - 1 then k else 0);
    }
    assert Carried(bodies, overlap)[..k] == before[..k];
  }

  lemma StripCarried(bodies: seq<seq<Line>>, overlap: nat, k: nat)
    requires k < |bodies| && k < |Carried(bodies, overlap)|
    ensures Strip(Carried(bodies, overlap), overlap, k) == bodies[k]
  {
    CarriedAt(bodies, overlap, k);
  }

  lemma StrippedCarried(bodies: seq<seq<Line>>, overlap: nat)
    ensures Stripped(Carried(bodies, overlap), overlap) == bodies
  {
    if bodies != [] { CarriedAt(bodies, overlap, 0); }
    forall k | 0 <= k < |bodies| ensures Stripped(Carried(bodies, overlap), overlap)[k] == bodies[k] {
      StripCarried(bodies, overlap, k);
    }
  }

  /** With an overlap of 0 nothing is dropped from one chunk to the next: every chunk
      repeats the whole document so far. */
  lemma {:induction false} ZeroOverlapAccumulates(bodies: seq<seq<Line>>, k: nat)
    requires k < |bodies|
    ensures k < |Carried(bodies, 0)| && Carried(bodies, 0)[k].lines == Concat(bodies[..k + 1])
    decreases k
  {
    CarriedAt(bodies, 0, k);
    assert bodies[..k + 1][..k] == bodies[..k];
    if k > 0 { ZeroOverlapAccumulates(bodies, k - 1); }
  }

  lemma ConcatOneMore(parts: seq<seq<Line>>, part: seq<Line>)
    ensures Concat(parts + [part]) == Concat(parts) + part
  {
    assert (parts + [part])[..|parts|] == parts;
  }

  lemma {:induction false} BodiesConcatenate(lines: seq<Line>)
    ensures Concat(Bodies(lines)) == FromFirstHeading(lines)
    ensures Bodies(lines) == [] <==> FromFirstHeading(lines) == []
    decreases |lines|
  {
    if lines != [] {
      var before, l := Bodies(lines[..|lines| - 1]), lines[|lines| - 1];
      BodiesConcatenate(lines[..|lines| - 1]);
      FromHeadingOneMore(lines);
      if l.heading.Heading? {
        ConcatOneMore(before, [l]);
      } else if before != [] {
        var start, last := before[..|before| - 1], before[|before| - 1];
        ConcatOneMore(start, last);
        ConcatOneMore(start, last + [l]);
        assert start + [last] == before;
      }
    }
  }

  /** A body is a heading followed by lines that are not. */
  ghost predicate OneSection(body: seq<Line>) {
    body != [] && body[0].heading.Heading? && forall j :: 0 < j < |body| ==> body[j].heading.NotHeading?
  }

  lemma {:induction false} BodiesAreSections(lines: seq<Line>, i: nat)
    requires i < |Bodies(lines)|
    ensures OneSection(Bodies(lines)[i])
    decreases |lines|
  {
    var before, l := Bodies(lines[..|lines| - 1]), lines[|lines| - 1];
    if i < |before| { BodiesAreSections(lines[..|lines| - 1], i); }
  }

  lemma {:induction false} FromHeadingOneMore(lines: seq<Line>)
    requires lines != []
    ensures var before, l := lines[..|lines| - 1], lines[|lines| - 1];
            FromFirstHeading(lines)
            == if FromFirstHeading(before) == [] && l.heading.NotHeading? then [] else FromFirstHeading(before) + [l]
    decreases |lines|
  {
    if lines[0].heading.NotHeading? && |lines| > 1 {
      FromHeadingOneMore(lines[1..]);
      assert lines[1..][..|lines| - 2] == lines[..|lines| - 1][1..];
    }
  }

  /** The lines from the first heading on. */
  lemma {:induction false} FromFirstHeadingMeaning(lines: seq<Line>, i: nat)
    requires i <= |lines| && forall j :: 0 <= j < i ==> lines[j].heading == NotHeading
    requires i < |lines| ==> lines[i].heading != NotHeading
    ensures FromFirstHeading(lines) == lines[i..]
    decreases |lines|
  {
    if i > 0 {
      FromFirstHeadingMeaning(lines[1..], i - 1);
      assert lines[1..][i - 1..] == lines[i..];
    }
  }

  /** Stripping each chunk's carried lines rebuilds every line from the first heading on. */
  lemma SectionsRebuild(lines: seq<Line>, overlap: nat)
    ensures Concat(Stripped(Carried(Bodies(lines), overlap), overlap)) == FromFirstHeading(lines)
  {
    StrippedCarried(Bodies(lines), overlap);
    BodiesConcatenate(lines);
  }

  // ---------------------------------------------------------------- what is carried

  /** The lines of the first `k` bodies. */
  function Before(bodies: seq<seq<Line>>, k: nat): seq<Line>
    requires k <= |bodies|
  {
    if k == 0 then [] else Before(bodies, k - 1) + bodies[k - 1]
  }

  lemma {:induction false} BeforeIsConcat(bodies: seq<seq<Line>>, k: nat)
    requires k <= |bodies|
    ensures Before(bodies, k) == Concat(bodies[..k])
  {
    if k > 0 {
      BeforeIsConcat(bodies, k - 1);
      assert bodies[..k] == bodies[..k - 1] + [bodies[k - 1]];
      ConcatOneMore(bodies[..k - 1], bodies[k - 1]);
    }
  }

  /** How many of the `start` lines before a body are carried into its chunk: all there are
      if the overlap is 0. */
  function CarriedLines(start: nat, overlap: nat): (n: nat)
    ensures n <= start
  {
    if overlap == 0 || start < overlap then start else overlap
  }

  /** Chunk `j` is what the ones before it carry over, and then body `j`. */
  ghost predicate Follows(bodies: seq<seq<Line>>, chunks: seq<Chunk>, overlap: nat, j: nat) {
    && j < |bodies| == |chunks| && chunks[j].lines == Carry(chunks[..j], overlap) + bodies[j]
    && chunks[j].pages == PagesOf(bodies[j])
  }

  ghost predicate AllFollow(bodies: seq<seq<Line>>, chunks: seq<Chunk>, overlap: nat) {
    && |chunks| == |bodies|
    && forall j: nat {:trigger Follows(bodies, chunks, overlap, j)} ::
         j < |bodies| ==> Follows(bodies, chunks, overlap, j)
  }

  lemma CarriedFollow(bodies: seq<seq<Line>>, overlap: nat)
    ensures AllFollow(bodies, Carried(bodies, overlap), overlap)
  {
    if bodies != [] { CarriedAt(bodies, overlap, 0); }
    forall j: nat {:trigger Follows(bodies, Carried(bodies, overlap), overlap, j)} | j < |bodies|
      ensures Follows(bodies, Carried(bodies, overlap), overlap, j)
    {
      CarriedAt(bodies, overlap, j);
    }
  }

  lemma {:induction false} CarryIsLast(bodies: seq<seq<Line>>, chunks: seq<Chunk>, overlap: nat, k: nat)
    requires AllFollow(bodies, chunks, overlap) && k <= |bodies|
    ensures Carry(chunks[..k], overlap) == LastLines(Before(bodies, k), CarriedLines(|Before(bodies, k)|, overlap))
  {
    if k > 0 {
      CarryIsLast(bodies, chunks, overlap, k - 1);
      assert Follows(bodies, chunks, overlap, k - 1);
      CarryOfPrefix(chunks, overlap, k);
      TailOfTail(Before(bodies, k - 1), bodies[k - 1], Carry(chunks[..k - 1], overlap), Before(bodies, k), overlap);
    }
  }

  lemma CarryOfPrefix(chunks: seq<Chunk>, overlap: nat, k: nat)
    requires 0 < k <= |chunks|
    ensures Carry(chunks[..k], overlap) == Tail(chunks[k - 1].lines, overlap)
  {
  }

  lemma TailOfTail(before: seq<Line>, body: seq<Line>, carry: seq<Line>, all: seq<Line>, overlap: nat)
    requires carry == LastLines(before, CarriedLines(|before|, overlap)) && all == before + body
    ensures Tail(carry + body, overlap) == LastLines(all, CarriedLines(|all|, overlap))
  {
    assert carry + body == all[|before| - |carry|..];
  }

  function LastLines(lines: seq<Line>, n: nat): (last: seq<Line>)
    requires n <= |lines|
    ensures |last| == n
  {
    lines[|lines| - n..]
  }

  /** `carry` is how `before` ends: all of it if the overlap is 0, and else as many lines as
      the overlap says, if there are so many. */
  predicate CarriedFrom(before: seq<Line>, overlap: nat, carry: seq<Line>) {
    && |carry| == (if overlap == 0 || |before| < overlap then |before| else overlap)
    && forall j :: 0 <= j < |carry| ==> carry[j] == before[|before| - |carry| + j]
  }

  lemma LastAreCarried(before: seq<Line>, overlap: nat)
    ensures CarriedFrom(before, overlap, LastLines(before, CarriedLines(|before|, overlap)))
  {
  }

  /** The lines carried into chunk `k` are those right before its body. */
  lemma CarryIsTail(bodies: seq<seq<Line>>, overlap: nat, k: nat)
    requires k < |bodies|
    ensures k <= |Carried(bodies, overlap)|
    ensures CarriedFrom(Concat(bodies[..k]), overlap, Carry(Carried(bodies, overlap)[..k], overlap))
  {
    CarriedFollow(bodies, overlap);
    CarryIsLast(bodies, Carried(bodies, overlap), overlap, k);
    BeforeIsConcat(bodies, k);
    LastAreCarried(Before(bodies, k), overlap);
  }

  ghost predicate NoneEmpty(bodies: seq<seq<Line>>) {
    forall i :: 0 <= i < |bodies| ==> bodies[i] != []
  }

  /** At most `overlap` lines are carried into a chunk if and only if the overlap is positive
      or the chunk is the first one. */
  lemma CarryBoundedExactlyWhen(bodies: seq<seq<Line>>, overlap: nat, k: nat)
    requires k < |bodies| && NoneEmpty(bodies)
    ensures k <= |Carried(bodies, overlap)|
    ensures |Carry(Carried(bodies, overlap)[..k], overlap)| <= overlap <==> overlap > 0 || k == 0
  {
    CarriedFollow(bodies, overlap);
    CarryIsLast(bodies, Carried(bodies, overlap), overlap, k);
    assert k > 0 ==> Before(bodies, k) == Before(bodies, k - 1) + bodies[k - 1];
  }

  lemma {:induction false} BodyInPlace(bodies: seq<seq<Line>>, k: nat, n: nat) returns (rest: seq<Line>)
    requires k < n <= |bodies|
    ensures Before(bodies, n) == Before(bodies, k) + (bodies[k] + rest)
  {
    if k + 1 == n {
      rest := [];
      assert bodies[k] + rest == bodies[k];
    } else {
      rest := BodyInPlace(bodies, k, n - 1);
      assert Before(bodies, k) + (bodies[k] + rest) + bodies[n - 1]
          == Before(bodies, k) + (bodies[k] + (rest + bodies[n - 1]));
      rest := rest + bodies[n - 1];
    }
  }

  /** Pages are read in order. */
  ghost predicate PagesAscend(lines: seq<Line>) {
    forall i, j :: 0 <= i <= j < |lines| ==> lines[i].page <= lines[j].page
  }

  lemma {:induction false} LaterPagesAscend(lines: seq<Line>)
    requires PagesAscend(lines)
    ensures PagesAscend(FromFirstHeading(lines))
    decreases |lines|
  {
    if lines != [] && lines[0].heading.NotHeading? { LaterPagesAscend(lines[1..]); }
  }

  /** A chunk's page list covers all its lines if and only if the first line carried into it
      is on the page of its heading. */
  lemma PagesCompleteExactlyWhen(lines: seq<Line>, overlap: nat, k: nat)
    requires PagesAscend(lines) && k < |Bodies(lines)|
    ensures k < |Carried(Bodies(lines), overlap)|
    ensures var chunk, all := Carried(Bodies(lines), overlap)[k], FromFirstHeading(lines);
            var at := |Before(Bodies(lines), k)|;
            && at < |all| && all[at].heading.Heading?
            && (PagesOf(chunk.lines) == chunk.pages <==> all[at - CarriedLines(at, overlap)].page == all[at].page)
  {
    var bodies := Bodies(lines);
    BodiesConcatenate(lines);
    LaterPagesAscend(lines);
    BodiesAreSections(lines, k);
    BeforeIsConcat(bodies, |bodies|);
    assert bodies[..|bodies|] == bodies;
    CarriedFollow(bodies, overlap);
    PagesComplete(bodies, Carried(bodies, overlap), overlap, k);
  }

  lemma PagesComplete(bodies: seq<seq<Line>>, chunks: seq<Chunk>, overlap: nat, k: nat)
    requires AllFollow(bodies, chunks, overlap) && k < |bodies| && bodies[k] != []
    requires PagesAscend(Before(bodies, |bodies|))
    ensures var all, at := Before(bodies, |bodies|), |Before(bodies, k)|;
            && at < |all| && all[at] == bodies[k][0]
            && (PagesOf(chunks[k].lines) == chunks[k].pages
                <==> all[at - CarriedLines(at, overlap)].page == all[at].page)
  {
    var all, before := Before(bodies, |bodies|), Before(bodies, k);
    var rest := BodyInPlace(bodies, k, |bodies|);
    CarryIsLast(bodies, chunks, overlap, k);
    assert Follows(bodies, chunks, overlap, k);
    PagesOfStretch(all, before, bodies[k], rest, CarriedLines(|before|, overlap), chunks[k].lines);
  }

  /** The last `n` lines before a body, and the body: a stretch of all the lines. */
  lemma PagesOfStretch(all: seq<Line>, before: seq<Line>, body: seq<Line>, rest: seq<Line>, n: nat, lines: seq<Line>)
    requires all == before + (body + rest) && body != [] && n <= |before| && PagesAscend(all)
    requires lines == LastLines(before, n) + body
    ensures all[|before|] == body[0]
    ensures PagesOf(lines) == PagesOf(body) <==> all[|before| - n].page == all[|before|].page
  {
    var at, end := |before|, |before| + |body|;
    assert all[at - n..end] == lines;
    assert all[at..end] == body;
    PagesOfSlice(all, at - n, at, end);
  }

  lemma PagesOfSlice(all: seq<Line>, from: nat, at: nat, end: nat)
    requires PagesAscend(all) && from <= at < end <= |all|
    ensures PagesOf(all[from..end]) == PagesOf(all[at..end]) <==> all[from].page == all[at].page
  {
    PagesMeaning(all, from, end);
    PagesMeaning(all, at, end);
    if all[from].page == all[at].page {
      forall p ensures p in PagesOf(all[from..end]) <==> p in PagesOf(all[at..end]) {
        if i :| from <= i < end && all[i].page == p { assert i < at ==> all[at].page == p; }
      }
    } else {
      assert all[from].page in PagesOf(all[from..end]);
    }
  }

  lemma PagesMeaning(all: seq<Line>, from: nat, end: nat)
    requires from <= end <= |all|
    ensures forall p :: p in PagesOf(all[from..end]) <==> exists i :: from <= i < end && all[i].page == p
  {
    var part := all[from..end];
    forall p ensures p in PagesOf(part) <==> exists i :: from <= i < end && all[i].page == p {
      if p in PagesOf(part) {
        var j :| 0 <= j < |part| && part[j].page == p;
        assert all[from + j].page == p;
      }
      if i :| from <= i < end && all[i].page == p { assert part[i - from].page == p; }
    }
  }

  lemma TwoBodies(first: Line, second: Line)
    requires first.heading.Heading? && second.heading.Heading?
    ensures Bodies([first, second]) == [[first], [second]]
  {
    assert [first, second][..1] == [first] && [first][..0] == [] && Bodies([]) == [];
    assert Bodies([first]) == [] + [[first]] == [[first]];
    assert Bodies([first, second]) == [[first]] + [[second]];
  }

  lemma TwoChunks(first: Line, second: Line, overlap: nat)
    requires overlap <= 1
    ensures var chunks := Carried([[first], [second]], overlap);
            && |chunks| == 2 && Carry(chunks[..1], overlap) == [first]
            && first.page in PagesOf(chunks[1].lines) && chunks[1].pages == {second.page}
  {
    var bodies := [[first], [second]];
    CarriedAt(bodies, overlap, 0);
    CarriedAt(bodies, overlap, 1);
    assert [] + [first] == [first] && [first] + [second] == [first, second];
    PagesOfTwo(first, second);
  }

  lemma PagesOfTwo(first: Line, second: Line)
    ensures first.page in PagesOf([first, second]) && PagesOf([second]) == {second.page}
  {
    PagesMeaning([first, second], 0, 2);
    assert [first, second][0..2] == [first, second] && [first, second][0].page == first.page;
    PagesMeaning([second], 0, 1);
    assert [second][0..1] == [second] && [second][0].page == second.page;
  }

  /** Two headings on two pages are enough for both to fail: with an overlap of 0 the second
      chunk carries a line, and with an overlap of 1 it does not list that line's page. */
  lemma TwoHeadings(first: Line, second: Line)
    requires first.heading.Heading? && second.heading.Heading? && first.page < second.page
    ensures var chunks := Carried(Bodies([first, second]), 0);
            |chunks| == 2 && |Carry(chunks[..1], 0)| == 1
    ensures var chunks := Carried(Bodies([first, second]), 1);
            |chunks| == 2 && first.page in PagesOf(chunks[1].lines) && chunks[1].pages == {second.page}
  {
    TwoBodies(first, second);
    TwoChunks(first, second, 0);
    TwoChunks(first, second, 1);
  }

  /** Body `k` in the document, with `all` the lines from the first heading on: it begins
      at a heading and goes on to the next one. */
  lemma BodyInDocument(lines: seq<Line>, k: nat)
    requires k < |Bodies(lines)|
    ensures var bodies, all := Bodies(lines), FromFirstHeading(lines);
            var at, end := |Concat(bodies[..k])|, |Concat(bodies[..k + 1])|;
            && at < end <= |all| && all[..at] == Concat(bodies[..k]) && all[at..end] == bodies[k]
            && all[at].heading.Heading? && (forall i :: at < i < end ==> all[i].heading.NotHeading?)
            && (if k + 1 == |bodies| then end == |all| else end < |all| && all[end].heading.Heading?)
  {
    var bodies, all := Bodies(lines), FromFirstHeading(lines);
    BodiesConcatenate(lines);
    BodiesAreSections(lines, k);
    BeforeIsConcat(bodies, |bodies|);
    BeforeIsConcat(bodies, k);
    BeforeIsConcat(bodies, k + 1);
    assert bodies[..|bodies|] == bodies;
    var rest := BodyInPlace(bodies, k, |bodies|);
    StretchInPlace(all, Before(bodies, k), bodies[k], rest);
    if k + 1 < |bodies| {
      BodiesAreSections(lines, k + 1);
      var more := BodyInPlace(bodies, k + 1, |bodies|);
      StretchInPlace(all, Before(bodies, k + 1), bodies[k + 1], more);
    }
  }

  lemma StretchInPlace(all: seq<Line>, before: seq<Line>, body: seq<Line>, rest: seq<Line>)
    requires all == before + (body + rest) && OneSection(body)
    ensures var at, end := |before|, |before| + |body|;
            && at < end <= |all| && all[..at] == before && all[at..end] == body
            && all[at].heading.Heading? && forall i :: at < i < end ==> all[i].heading.NotHeading?
  {
    assert all[|before|..|before| + |body|] == body;
    forall i | |before| < i < |before| + |body| ensures all[i].heading.NotHeading? {
      assert all[i] == body[i - |before|];
    }
  }

  /** Chunk `k` said of the document: the lines carried over from before its heading, and
      its own up to the next heading; that heading's section and title; and exactly the
      pages of its own lines. */
  lemma ChunkInDocument(lines: seq<Line>, overlap: nat, k: nat)
    requires k < |Bodies(lines)|
    ensures var bodies, all := Bodies(lines), FromFirstHeading(lines);
            var at, end := |Concat(bodies[..k])|, |Concat(bodies[..k + 1])|;
            && |Carried(bodies, overlap)| == |bodies| && at < end <= |all|
            && CutFrom(all, at, end, overlap, Carried(bodies, overlap)[k])
  {
    var bodies, all := Bodies(lines), FromFirstHeading(lines);
    BodyInDocument(lines, k);
    CarriedAt(bodies, overlap, k);
    CarryIsTail(bodies, overlap, k);
    CutInPlace(all, |Concat(bodies[..k])|, |Concat(bodies[..k + 1])|, overlap,
               Carry(Carried(bodies, overlap)[..k], overlap), Carried(bodies, overlap)[k]);
  }

  /** The chunk is what lies between these two positions, behind the lines carried over. */
  ghost predicate CutFrom(all: seq<Line>, at: nat, end: nat, overlap: nat, chunk: Chunk)
    requires at < end <= |all|
  {
    && chunk.heading == all[at].heading
    && chunk.lines == all[if overlap == 0 || at < overlap then 0 else at - overlap..end]
    && forall p :: p in chunk.pages <==> exists i :: at <= i < end && all[i].page == p
  }

  lemma CutInPlace(all: seq<Line>, at: nat, end: nat, overlap: nat, carry: seq<Line>, chunk: Chunk)
    requires at < end <= |all| && CarriedFrom(all[..at], overlap, carry)
    requires chunk.lines == carry + all[at..end] && chunk.heading == HeadingOf(all[at..end])
    requires chunk.pages == PagesOf(all[at..end])
    ensures CutFrom(all, at, end, overlap, chunk)
  {
    assert all[at - |carry|..at] == carry;
    assert all[at - |carry|..end] == carry + all[at..end];
    PagesMeaning(all, at, end);
  }
}
