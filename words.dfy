/** The positioned OCR tokens (OcrWord), the Event record, and the conversion of a
    document-layout response into tokens (Nichinoken.__read_response). */
module Words {
  import opened Outcomes
  import opened Text
  import opened Calendar

  /** The parts of the layout response that the reader looks at. */
  datatype Vertex = Vertex(x: real, y: real)
  datatype TextSegment = TextSegment(startIndex: Option<int>, endIndex: int)
  datatype Block = Block(textSegments: seq<TextSegment>, vertices: seq<Vertex>)
  datatype Page = Page(blocks: seq<Block>)
  datatype Document = Document(text: string, pages: seq<Page>)

  /** OcrWord: a text block with the centre and size of its bounding box. */
  datatype Word = Word(text: string, cx: real, cy: real, width: real, height: real)

  /** Event: a calendar date and the text printed for it. */
  datatype Event = Event(date: Date, name: string)

  /** The THRESHOLD table of lib/nichinoken.py. */
  const WordDateDistance: real := 0.15
  const WordMaxHeight: real := 0.1
  const WordMaxWidth: real := 0.25
  const WordGradeDistance: real := 0.1

  function Abs(x: real): (r: real)
    ensures r >= 0.0 && (r == x || r == -x)
  {
    if x < 0.0 then -x else x
  }

  /** The source reads page 0 and, in each block, text segment 0. */
  const PageNo: nat := 0

  function MinOf(xs: seq<real>): (m: real)
    requires |xs| > 0
    ensures m in xs
    ensures forall i :: 0 <= i < |xs| ==> m <= xs[i]
  {
    if |xs| == 1 then xs[0]
    else
      var rest := MinOf(xs[1..]);
      if xs[0] <= rest then xs[0] else rest
  }

  function MaxOf(xs: seq<real>): (m: real)
    requires |xs| > 0
    ensures m in xs
    ensures forall i :: 0 <= i < |xs| ==> xs[i] <= m
  {
    if |xs| == 1 then xs[0]
    else
      var rest := MaxOf(xs[1..]);
      if xs[0] >= rest then xs[0] else rest
  }

  function Xs(vs: seq<Vertex>): seq<real>
  {
    seq(|vs|, i requires 0 <= i < |vs| => vs[i].x)
  }

  function Ys(vs: seq<Vertex>): seq<real>
  {
    seq(|vs|, i requires 0 <= i < |vs| => vs[i].y)
  }

  /** A block the reader can convert without raising: it has a text segment at index PageNo
      and at least one vertex (min() of an empty list raises ValueError). */
  predicate WellFormedBlock(b: Block)
  {
    |b.textSegments| > PageNo && |b.vertices| > 0
  }

  predicate WellFormed(doc: Document)
  {
    |doc.pages| > PageNo && AllWellFormed(doc.pages[PageNo].blocks)
  }

  function StartIndex(seg: TextSegment): int
  {
    match seg.startIndex
    case Some(i) => i
    case None => 0
  }

  /** One token from one block: the box is the smallest axis-aligned box around the polygon
      (centre and extent), the text is the block's span of the page text, stripped. */
  function WordOf(b: Block, text: string): (r: Result<Word>)
    ensures r.Ok? <==> WellFormedBlock(b)
    ensures r.Err? ==> r.error == MalformedInput
    ensures r.Ok? ==> r.value.width >= 0.0 && r.value.height >= 0.0
    ensures r.Ok? ==> forall i :: 0 <= i < |b.vertices| ==>
      r.value.cx - r.value.width / 2.0 <= b.vertices[i].x <= r.value.cx + r.value.width / 2.0 &&
      r.value.cy - r.value.height / 2.0 <= b.vertices[i].y <= r.value.cy + r.value.height / 2.0
    ensures r.Ok? ==> exists i :: 0 <= i < |b.vertices| && b.vertices[i].x == r.value.cx - r.value.width / 2.0
    ensures r.Ok? ==> exists i :: 0 <= i < |b.vertices| && b.vertices[i].x == r.value.cx + r.value.width / 2.0
    ensures r.Ok? ==> exists i :: 0 <= i < |b.vertices| && b.vertices[i].y == r.value.cy - r.value.height / 2.0
    ensures r.Ok? ==> exists i :: 0 <= i < |b.vertices| && b.vertices[i].y == r.value.cy + r.value.height / 2.0
    ensures r.Ok? ==>
      r.value.text == Strip(PySlice(text, StartIndex(b.textSegments[PageNo]), b.textSegments[PageNo].endIndex))
  {
    if !WellFormedBlock(b) then Err(MalformedInput)
    else
      var seg := b.textSegments[PageNo];
      var xs, ys := Xs(b.vertices), Ys(b.vertices);
      var minX, maxX := MinOf(xs), MaxOf(xs);
      var minY, maxY := MinOf(ys), MaxOf(ys);
      assert forall i :: 0 <= i < |b.vertices| ==> xs[i] == b.vertices[i].x && ys[i] == b.vertices[i].y;
      Ok(Word(Strip(PySlice(text, StartIndex(seg), seg.endIndex)),
              (minX + maxX) / 2.0, (minY + maxY) / 2.0, maxX - minX, maxY - minY))
  }

  predicate AllWellFormed(blocks: seq<Block>)
  {
    forall i :: 0 <= i < |blocks| ==> WellFormedBlock(blocks[i])
  }

  /** __read_response: one token per block of page 0, in block order; a malformed response
      aborts the whole conversion. */
  method ReadResponse(doc: Document) returns (r: Result<seq<Word>>)
    ensures r.Err? <==> !WellFormed(doc)
    ensures r.Err? ==> r.error == MalformedInput
    ensures r.Ok? ==> |r.value| == |doc.pages[PageNo].blocks|
    ensures r.Ok? ==> forall i :: 0 <= i < |r.value| ==> Ok(r.value[i]) == WordOf(doc.pages[PageNo].blocks[i], doc.text)
  {
    if |doc.pages| <= PageNo {
      return Err(MalformedInput);
    }
    r := ReadBlocks(doc.pages[PageNo].blocks, doc.text);
  }

  /** The loop of __read_response over the blocks of one page. */
  method ReadBlocks(blocks: seq<Block>, text: string) returns (r: Result<seq<Word>>)
    ensures r.Err? <==> !AllWellFormed(blocks)
    ensures r.Err? ==> r.error == MalformedInput
    ensures r.Ok? ==> |r.value| == |blocks|
    ensures r.Ok? ==> forall i :: 0 <= i < |r.value| ==> Ok(r.value[i]) == WordOf(blocks[i], text)
  {
    var words: seq<Word> := [];
    var i := 0;
    while i < |blocks|
      invariant 0 <= i <= |blocks|
      invariant |words| == i
      invariant forall k :: 0 <= k < i ==> Ok(words[k]) == WordOf(blocks[k], text)
    {
      var w := WordOf(blocks[i], text);
      if w.Err? {
        return Err(MalformedInput);
      }
      words := words + [w.value];
      i := i + 1;
    }
    return Ok(words);
  }

  /** The token list of a well-formed response. */
  function DocumentWords(doc: Document): seq<Word>
    requires WellFormed(doc)
  {
    var blocks := doc.pages[PageNo].blocks;
    seq(|blocks|, i requires 0 <= i < |blocks| => WordOf(blocks[i], doc.text).value)
  }
}
