/** Fixed-size token chunks with character offsets, and the pages they are attributed to. */
module Tokens {
  import opened Windows

  datatype Chunk = Chunk(text: string, start: nat, pages: seq<nat>)

  datatype Result = TokenChunks(chunks: seq<Chunk>) | EmptySeparator | NoStep

  predicate StartsWith(text: string, sep: string) {
    |sep| <= |text| && text[..|sep|] == sep
  }

  function Join(tokens: seq<string>, sep: string): string {
    if tokens == [] then "" else if |tokens| == 1 then tokens[0] else tokens[0] + sep + Join(tokens[1..], sep)
  }

  /** Python's `split`: cut at the leftmost separator, again and again. `token` is what
      has been read of the current token. */
  function SplitFrom(token: string, text: string, sep: string): (tokens: seq<string>)
    requires sep != ""
    ensures tokens != []
    decreases |text|
  {
    if text == "" then [token]
    else if StartsWith(text, sep) then [token] + SplitFrom("", text[|sep|..], sep)
    else SplitFrom(token + [text[0]], text[1..], sep)
  }

  lemma JoinCons(token: string, rest: seq<string>, sep: string)
    requires rest != []
    ensures Join([token] + rest, sep) == token + sep + Join(rest, sep)
  {
    assert ([token] + rest)[1..] == rest;
  }

  /** Joining undoes splitting. */
  lemma {:induction false} JoinSplit(token: string, text: string, sep: string)
    requires sep != ""
    ensures Join(SplitFrom(token, text, sep), sep) == token + text
    decreases |text|
  {
    if text == "" {
    } else if StartsWith(text, sep) {
      JoinSplit("", text[|sep|..], sep);
      JoinCons(token, SplitFrom("", text[|sep|..], sep), sep);
      CutAtSeparator(token, text, sep);
    } else {
      JoinSplit(token + [text[0]], text[1..], sep);
      assert token + text == token + [text[0]] + text[1..];
    }
  }

  lemma CutAtSeparator(token: string, text: string, sep: string)
    requires StartsWith(text, sep)
    ensures token + sep + ("" + text[|sep|..]) == token + text
  {
    assert text == sep + text[|sep|..];
  }

  predicate Occurs(sep: string, text: string, i: nat) {
    i + |sep| <= |text| && text[i..i + |sep|] == sep
  }

  lemma OccursInLonger(sep: string, token: string, text: string, i: nat)
    requires Occurs(sep, token, i)
    ensures Occurs(sep, token + text, i)
  {
    assert (token + text)[i..][..|sep|] == token[i..][..|sep|];
  }

  /** Splitting leaves no separator inside a token. */
  lemma {:induction false} SplitIsComplete(token: string, text: string, sep: string, j: nat, i: nat)
    requires sep != "" && forall k: nat :: k < |token| ==> !Occurs(sep, token + text, k)
    requires j < |SplitFrom(token, text, sep)|
    ensures !Occurs(sep, SplitFrom(token, text, sep)[j], i)
    decreases |text|
  {
    if text == "" {
      assert token + text == token;
    } else if StartsWith(text, sep) {
      if j > 0 {
        SplitIsComplete("", text[|sep|..], sep, j - 1, i);
      } else if Occurs(sep, token, i) {
        OccursInLonger(sep, token, text, i);
      }
    } else {
      var longer, rest := token + [text[0]], text[1..];
      assert longer + rest == token + text && (token + text)[|token|..] == text;
      SplitIsComplete(longer, rest, sep, j, i);
    }
  }

  predicate NoneBefore(sep: string, text: string, at: nat) {
    forall k: nat :: k < at ==> !Occurs(sep, text, k)
  }

  /** Splitting cuts at the leftmost separator and goes on right behind it. */
  lemma {:induction false} SplitIsLeftmost(token: string, text: string, sep: string) returns (at: nat)
    requires sep != ""
    ensures at <= |text| && SplitFrom(token, text, sep)[0] == token + text[..at] && NoneBefore(sep, text, at)
    ensures if at == |text| then SplitFrom(token, text, sep) == [token + text]
            else Occurs(sep, text, at)
                 && SplitFrom(token, text, sep)[1..] == SplitFrom("", text[at + |sep|..], sep)
    decreases |text|
  {
    if text == "" {
      at := 0;
      assert token + text == token;
    } else if StartsWith(text, sep) {
      at := 0;
      assert text[0..] == text && token + text[..0] == token;
    } else {
      at := SplitIsLeftmost(token + [text[0]], text[1..], sep);
      OneFurther(token, text, sep, at);
      at := at + 1;
    }
  }

  lemma OneFurther(token: string, text: string, sep: string, at: nat)
    requires text != "" && !StartsWith(text, sep) && at < |text| && NoneBefore(sep, text[1..], at)
    ensures token + [text[0]] + text[1..][..at] == token + text[..at + 1] && NoneBefore(sep, text, at + 1)
    ensures token + [text[0]] + text[1..] == token + text && text[1..][at..] == text[at + 1..]
    ensures Occurs(sep, text[1..], at) ==>
              |sep| <= |text[at + 1..]| && text[1..][at + |sep|..] == text[at + 1 + |sep|..]
  {
    forall k: nat | k < at + 1 ensures !Occurs(sep, text, k) {
      assert text[0..] == text;
      if k > 0 { assert !Occurs(sep, text[1..], k - 1) && text[1..][k - 1..] == text[k..]; }
    }
  }

  /** The characters that `tokens` take up, each with a separator after it. */
  function Width(tokens: seq<string>, sep: string): nat {
    if tokens == [] then 0 else |tokens[0]| + |sep| + Width(tokens[1..], sep)
  }

  /** A run of tokens sits in the joined text exactly at the computed offset. */
  lemma {:induction false} RunIsSlice(tokens: seq<string>, sep: string, i: nat, n: nat)
    requires i < n <= |tokens|
    ensures var start, run, text := Width(tokens[..i], sep), Join(tokens[i..n], sep), Join(tokens, sep);
            start + |run| <= |text| && text[start..start + |run|] == run
    decreases |tokens|
  {
    if i > 0 {
      RunIsSlice(tokens[1..], sep, i - 1, n - 1);
      assert tokens[1..][..i - 1] == tokens[..i][1..] && tokens[1..][i - 1..n - 1] == tokens[i..n];
      var start, run, rest := Width(tokens[1..][..i - 1], sep), Join(tokens[i..n], sep), Join(tokens[1..], sep);
      var lead := tokens[0] + sep;
      assert Join(tokens, sep) == lead + rest;
      assert (lead + rest)[|lead| + start..|lead| + start + |run|] == rest[start..start + |run|];
    } else {
      PrefixOfJoin(tokens, sep, n);
    }
  }

  /** That offset is where the tokens before, joined, and one more separator end. */
  lemma {:induction false} WidthMeaning(tokens: seq<string>, sep: string)
    ensures Width(tokens, sep) == if tokens == [] then 0 else |Join(tokens, sep)| + |sep|
  {
    if tokens != [] { WidthMeaning(tokens[1..], sep); }
  }

  lemma {:induction false} PrefixOfJoin(tokens: seq<string>, sep: string, n: nat)
    requires 0 < n <= |tokens|
    ensures var run, text := Join(tokens[..n], sep), Join(tokens, sep);
            |run| <= |text| && text[..|run|] == run
    decreases |tokens|
  {
    if n == 1 {
      assert tokens[..1] == [tokens[0]];
    } else {
      PrefixOfJoin(tokens[1..], sep, n - 1);
      assert tokens[1..][..n - 1] == tokens[..n][1..];
    }
  }

  // ---------------------------------------------------------------- pages

  /** Page `p`, counted from 1 among the kept pages, lies between these two breaks. */
  predicate Listed(breaks: seq<nat>, p: nat, start: nat, end: nat)
    requires 0 < p < |breaks|
  {
    var b, e := breaks[p - 1], breaks[p];
    b <= start < e || b <= end < e || (start <= b && end >= e)
  }

  /** The page and the chunk have a character in common. */
  ghost predicate Shares(breaks: seq<nat>, p: nat, start: nat, end: nat)
    requires 0 < p < |breaks|
  {
    exists c: nat :: Within(c, breaks[p - 1], breaks[p]) && Within(c, start, end)
  }

  predicate Within(c: nat, from: nat, to: nat) {
    from <= c < to
  }

  /** For a nonempty chunk a page is listed exactly when it shares a character with it,
      or holds text and starts right where the chunk ends, or is empty and falls within
      it; for an empty one, when it holds the next character, or is empty and lies there. */
  lemma ListedExactlyWhen(breaks: seq<nat>, p: nat, start: nat, end: nat)
    requires 0 < p < |breaks| && breaks[p - 1] <= breaks[p] && start <= end
    ensures start < end ==> (Listed(breaks, p, start, end) <==>
              || Shares(breaks, p, start, end)
              || (breaks[p - 1] < breaks[p] && breaks[p - 1] == end)
              || (breaks[p - 1] == breaks[p] && start <= breaks[p] <= end))
    ensures start == end ==> (Listed(breaks, p, start, end) <==>
              Within(start, breaks[p - 1], breaks[p]) || breaks[p - 1] == breaks[p] == start)
  {
    var b, e := breaks[p - 1], breaks[p];
    var c := if b <= start then start else b;
    assert c < e && c < end ==> Within(c, b, e) && Within(c, start, end);
  }

  function PageList(breaks: seq<nat>, n: nat, start: nat, end: nat): seq<nat>
    requires 0 < n <= |breaks|
  {
    if n == 1 then []
    else PageList(breaks, n - 1, start, end) + if Listed(breaks, n - 1, start, end) then [n - 1] else []
  }

  /** The text of the kept pages and the positions where they end. */
  function FullText(pages: seq<string>): string {
    if pages == [] then "" else FullText(pages[..|pages| - 1]) + pages[|pages| - 1]
  }

  predicate BreaksOf(pages: seq<string>, breaks: seq<nat>) {
    && |breaks| == |pages| + 1
    && forall p {:trigger breaks[p]} :: 0 <= p <= |pages| ==> breaks[p] == |FullText(pages[..p])|
  }

  lemma {:induction false} BreaksAscend(pages: seq<string>, breaks: seq<nat>, p: nat)
    requires BreaksOf(pages, breaks) && 0 < p <= |pages|
    ensures breaks[p - 1] <= breaks[p]
  {
    assert pages[..p][..p - 1] == pages[..p - 1];
  }

  /** The text between two breaks is that of the page there, and there is no more. */
  lemma TextOfPage(pages: seq<string>, breaks: seq<nat>, p: nat)
    requires BreaksOf(pages, breaks) && p < |pages|
    ensures breaks[0] == 0 && |FullText(pages)| == breaks[|pages|]
    ensures breaks[p] <= breaks[p + 1] <= |FullText(pages)| && FullText(pages)[breaks[p]..breaks[p + 1]] == pages[p]
  {
    assert pages[..|pages|] == pages && pages[..p + 1][..p] == pages[..p];
    assert FullText(pages[..p + 1]) == FullText(pages[..p]) + pages[p];
    PrefixOfText(pages, p + 1);
  }

  lemma {:induction false} PrefixOfText(pages: seq<string>, n: nat)
    requires n <= |pages|
    ensures var some, all := FullText(pages[..n]), FullText(pages); |some| <= |all| && all[..|some|] == some
    decreases |pages|
  {
    if n < |pages| {
      var before := pages[..|pages| - 1];
      PrefixOfText(before, n);
      assert before[..n] == pages[..n];
    } else {
      assert pages[..n] == pages;
    }
  }

  /** What a chunk says of itself is true: its text is the slice of the full text at its
      computed offset, and its pages are the listed ones. */
  ghost predicate ChunkRight(text: string, breaks: seq<nat>, tokens: seq<string>, sep: string, size: nat, i: nat,
                             c: Chunk)
    requires i <= |tokens| && breaks != []
  {
    && c.text == Join(tokens[i..if |tokens| < i + size then |tokens| else i + size], sep)
    && c.start == Width(tokens[..i], sep)
    && c.start + |c.text| <= |text| && text[c.start..c.start + |c.text|] == c.text
    && c.pages == PageList(breaks, |breaks|, c.start, c.start + |c.text|)
  }

  ghost predicate RightAt(text: string, breaks: seq<nat>, tokens: seq<string>, sep: string, size: nat, step: nat,
                          chunks: seq<Chunk>, k: nat)
    requires breaks != []
  {
    k < |chunks| && Start(k, step) < |tokens| && ChunkRight(text, breaks, tokens, sep, size, Start(k, step), chunks[k])
  }

  /** Chunk `k` is the right one for the tokens from `k` steps on. */
  ghost predicate ChunksRight(text: string, breaks: seq<nat>, tokens: seq<string>, sep: string, size: nat, step: nat,
                              chunks: seq<Chunk>)
    requires breaks != []
  {
    forall k: nat {:trigger RightAt(text, breaks, tokens, sep, size, step, chunks, k)} :: k < |chunks| ==>
      RightAt(text, breaks, tokens, sep, size, step, chunks, k)
  }

  lemma OneMoreRight(text: string, breaks: seq<nat>, tokens: seq<string>, sep: string, size: nat, step: nat,
                     chunks: seq<Chunk>, c: Chunk)
    requires breaks != [] && ChunksRight(text, breaks, tokens, sep, size, step, chunks)
    requires Start(|chunks|, step) < |tokens| && ChunkRight(text, breaks, tokens, sep, size, Start(|chunks|, step), c)
    ensures ChunksRight(text, breaks, tokens, sep, size, step, chunks + [c])
  {
    forall k: nat {:trigger RightAt(text, breaks, tokens, sep, size, step, chunks + [c], k)} | k < |chunks + [c]|
      ensures RightAt(text, breaks, tokens, sep, size, step, chunks + [c], k)
    {
      if k < |chunks| { assert RightAt(text, breaks, tokens, sep, size, step, chunks, k); }
    }
  }

  /** `numbers` are the kept pages' own numbers, which the original records and never reads:
      the chunks count pages from 1 among the kept ones. */
  method ChunkByFixedTokenSize(document: seq<string>, skip: int, size: nat, overlap: nat, sep: string)
    returns (r: Result, ghost tokens: seq<string>, ghost breaks: seq<nat>, numbers: seq<nat>)
    ensures r.EmptySeparator? <==> sep == ""
    ensures sep != "" && size == overlap ==> r == NoStep
    ensures sep != "" && size < overlap ==> r == TokenChunks([])
    ensures numbers == PageNumbers(|Kept(document, skip)|, skip) && NumbersPoint(document, skip, numbers)
    ensures BreaksOf(Kept(document, skip), breaks)
    ensures sep != "" ==> tokens == SplitFrom("", FullText(Kept(document, skip)), sep)
    ensures sep != "" && overlap < size ==> r.TokenChunks? && |tokens| <= Start(|r.chunks|, size - overlap)
    ensures sep != "" && overlap < size ==>
              ChunksRight(FullText(Kept(document, skip)), breaks, tokens, sep, size, size - overlap, r.chunks)
  {
    var text, ends;
    text, ends, numbers := CollectText(document, skip);
    PageNumbersRight(document, skip);
    tokens, breaks := [], ends;
    if sep == "" { return EmptySeparator, tokens, breaks, numbers; }
    var words := SplitFrom("", text, sep);
    JoinSplit("", text, sep);
    assert "" + text == text;
    tokens := words;
    var step := size - overlap;
    if step == 0 { return NoStep, tokens, breaks, numbers; }
    var chunks: seq<Chunk> := [];
    if step < 0 { return TokenChunks(chunks), tokens, breaks, numbers; }
    var i := 0;
    while i < |words|
      invariant i == Start(|chunks|, step)
      invariant ChunksRight(text, ends, words, sep, size, step, chunks)
      decreases |words| - i
    {
      var c := MakeChunk(text, ends, words, sep, size, i);
      OneMoreRight(text, ends, words, sep, size, step, chunks, c);
      chunks := chunks + [c];
      i := i + step;
    }
    return TokenChunks(chunks), tokens, breaks, numbers;
  }

  method MakeChunk(text: string, breaks: seq<nat>, words: seq<string>, sep: string, size: nat, i: nat)
    returns (c: Chunk)
    requires i < |words| && size > 0 && text == Join(words, sep) && breaks != []
    ensures ChunkRight(text, breaks, words, sep, size, i, c)
  {
    var run := Join(Window(words, i, size), sep);
    var start := 0;
    for j := 0 to i
      invariant start == Width(words[..j], sep)
    {
      WidthOneMore(words, sep, j);
      start := start + |words[j]| + |sep|;
    }
    RunIsSlice(words, sep, i, Min(i + size, |words|));
    var end := start + |run|;
    var pages: seq<nat> := [];
    for p := 1 to |breaks|
      invariant pages == PageList(breaks, p, start, end)
    {
      if Listed(breaks, p, start, end) { pages := pages + [p]; }
    }
    c := Chunk(run, start, pages);
  }

  lemma {:induction false} WidthOneMore(tokens: seq<string>, sep: string, j: nat)
    requires j < |tokens|
    ensures Width(tokens[..j + 1], sep) == Width(tokens[..j], sep) + |tokens[j]| + |sep|
    decreases |tokens|
  {
    if j > 0 {
      WidthOneMore(tokens[1..], sep, j - 1);
      assert tokens[..j + 1][1..] == tokens[1..][..j] && tokens[..j][1..] == tokens[1..][..j - 1];
    }
  }

  /** The pages of the document that are not skipped. */
  function Kept(document: seq<string>, skip: int): seq<string> {
    if skip <= 0 then document else if skip >= |document| then [] else document[skip..]
  }

  /** As many pages are left out as are to be skipped, all from the front. */
  lemma KeptMeaning(document: seq<string>, skip: int, i: nat)
    requires i < |document|
    ensures skip <= 0 ==> |Kept(document, skip)| == |document|
    ensures 0 <= skip <= |document| ==> |Kept(document, skip)| == |document| - skip
    ensures |document| <= skip ==> Kept(document, skip) == []
    ensures var dropped := |document| - |Kept(document, skip)|;
            dropped <= i ==> Kept(document, skip)[i - dropped] == document[i]
  {
  }

  function Skipped(skip: int): nat {
    if skip > 0 then skip else 0
  }

  function PageNumber(k: nat, skip: int): nat {
    k + 1 + Skipped(skip)
  }

  /** The numbers of the first `n` kept pages, counted from 1 in the document. */
  function PageNumbers(n: nat, skip: int): (numbers: seq<nat>)
    ensures |numbers| == n && forall k :: 0 <= k < n ==> numbers[k] == PageNumber(k, skip)
  {
    seq(n, k requires 0 <= k < n => PageNumber(k, skip))
  }

  /** Each kept page is the one with that number. */
  ghost predicate NumbersPoint(document: seq<string>, skip: int, numbers: seq<nat>) {
    && |numbers| == |Kept(document, skip)|
    && forall k :: 0 <= k < |numbers| ==> NumberPoints(document, numbers[k], Kept(document, skip)[k])
  }

  ghost predicate NumberPoints(document: seq<string>, number: nat, page: string) {
    1 <= number <= |document| && document[number - 1] == page
  }

  lemma PageNumbersRight(document: seq<string>, skip: int)
    ensures NumbersPoint(document, skip, PageNumbers(|Kept(document, skip)|, skip))
  {
  }

  /** The numbers that chunks give to pages are those if and only if no page is skipped. */
  lemma NumbersRightExactlyWhen(n: nat, skip: int)
    requires n > 0
    ensures (forall k :: 0 <= k < n ==> PageNumbers(n, skip)[k] == k + 1) <==> skip <= 0
  {
    assert PageNumbers(n, skip)[0] == 1 + Skipped(skip);
  }

  ghost predicate Collected(document: seq<string>, skip: int, text: string, breaks: seq<nat>, numbers: seq<nat>) {
    && text == FullText(Kept(document, skip)) && BreaksOf(Kept(document, skip), breaks)
    && numbers == PageNumbers(|Kept(document, skip)|, skip)
  }

  method CollectText(document: seq<string>, skip: int) returns (text: string, breaks: seq<nat>, numbers: seq<nat>)
    ensures Collected(document, skip, text, breaks, numbers)
  {
    text, breaks, numbers := "", [0], [];
    for i := 0 to |document|
      invariant Collected(document[..i], skip, text, breaks, numbers)
    {
      CollectStep(document, skip, i, text, breaks, numbers);
      if i >= skip {
        text := text + document[i];
        breaks := breaks + [|text|];
        numbers := numbers + [i + 1];
      }
    }
    assert document[..|document|] == document;
  }

  lemma CollectStep(document: seq<string>, skip: int, i: nat, text: string, breaks: seq<nat>, numbers: seq<nat>)
    requires i < |document| && Collected(document[..i], skip, text, breaks, numbers)
    ensures if i >= skip
            then Collected(document[..i + 1], skip, text + document[i], breaks + [|text + document[i]|],
                           numbers + [i + 1])
            else Collected(document[..i + 1], skip, text, breaks, numbers)
  {
    var before := Kept(document[..i], skip);
    KeptOneMore(document, skip, i);
    NumbersOneMore(|before|, skip);
    BreaksOneMore(before, breaks, document[i]);
    assert i < skip ==> Kept(document[..i + 1], skip) == before + [] == before;
  }

  lemma KeptOneMore(document: seq<string>, skip: int, i: nat)
    requires i < |document|
    ensures Kept(document[..i + 1], skip) == Kept(document[..i], skip) + if i >= skip then [document[i]] else []
    ensures i >= skip ==> |Kept(document[..i], skip)| + Skipped(skip) == i
  {
    var before, after := document[..i], document[..i + 1];
    assert after == before + [document[i]];
  }

  lemma NumbersOneMore(n: nat, skip: int)
    ensures PageNumbers(n + 1, skip) == PageNumbers(n, skip) + [n + 1 + Skipped(skip)]
  {
  }

  lemma BreaksOneMore(pages: seq<string>, breaks: seq<nat>, page: string)
    requires BreaksOf(pages, breaks)
    ensures FullText(pages + [page]) == FullText(pages) + page
    ensures BreaksOf(pages + [page], breaks + [|FullText(pages) + page|])
  {
    var longer := pages + [page];
    assert longer[..|pages|] == pages && longer[..|longer|] == longer && pages[..|pages|] == pages;
    forall p | 0 <= p <= |pages| ensures longer[..p] == pages[..p] { }
  }

  /** Each listed page once, in order. */
  lemma {:induction false} PageListMeaning(breaks: seq<nat>, n: nat, start: nat, end: nat, p: nat)
    requires 0 < n <= |breaks|
    ensures p in PageList(breaks, n, start, end) <==> 0 < p < n && Listed(breaks, p, start, end)
    ensures forall i :: 0 <= i < |PageList(breaks, n, start, end)| ==> PageList(breaks, n, start, end)[i] < n
    ensures forall i, j :: 0 <= i < j < |PageList(breaks, n, start, end)| ==>
              PageList(breaks, n, start, end)[i] < PageList(breaks, n, start, end)[j]
  {
    if n > 1 { PageListMeaning(breaks, n - 1, start, end, p); }
  }

  /** So the pages of a nonempty chunk of a real document are the pages it shares a
      character with, and otherwise only one that begins at its very end or is empty. */
  lemma PagesOfChunk(pages: seq<string>, breaks: seq<nat>, start: nat, end: nat, p: nat)
    requires BreaksOf(pages, breaks) && start < end && 0 < p <= |pages|
    ensures Shares(breaks, p, start, end) ==> p in PageList(breaks, |breaks|, start, end)
    ensures p in PageList(breaks, |breaks|, start, end) && !Shares(breaks, p, start, end) ==>
              breaks[p - 1] == end || breaks[p - 1] == breaks[p]
  {
    BreaksAscend(pages, breaks, p);
    ListedExactlyWhen(breaks, p, start, end);
    PageListMeaning(breaks, |breaks|, start, end, p);
  }
}
