/** The text-extraction walk of the `/get-doc` handler: every text run of
    every paragraph, in block order and then element order, concatenated
    before any trimming. */
module Extract {
  import opened Results
  import opened Docs

  /** `text += piece` when either side may already have raised: the first
      exception in walk order is the one that escapes. */
  function Then(acc: Result<string>, piece: Result<string>): Result<string>
  {
    match acc
    case Err(_) => acc
    case Ok(a) =>
      match piece
      case Err(_) => piece
      case Ok(b) => Ok(a + b)
  }

  lemma ThenAssociative(a: Result<string>, b: Result<string>, c: Result<string>)
    ensures Then(Then(a, b), c) == Then(a, Then(b, c))
  {
    if a.Ok? && b.Ok? && c.Ok? {
      assert (a.value + b.value) + c.value == a.value + (b.value + c.value);
    }
  }

  /** The pieces of `xs`, appended in order to an empty text. */
  function ConcatMap<T>(xs: seq<T>, piece: T -> Result<string>): Result<string>
  {
    if xs == [] then Ok("") else Then(piece(xs[0]), ConcatMap(xs[1..], piece))
  }

  /** What one paragraph element appends: `el.get("textRun", {}).get("content", "")`. */
  function RunText(el: ParagraphElement): Result<string>
  {
    match el.textRun
    case Absent => Ok("")
    case Null => Err(NullTextRun)
    case Present(run) =>
      match run.content
      case Absent => Ok("")
      case Null => Err(NullRunContent)
      case Present(s) => Ok(s)
  }

  /** What one content block appends. A missing or null paragraph is falsy,
      so the block is skipped; otherwise its elements are walked in order. */
  function BlockText(block: StructuralElement): Result<string>
  {
    match block.paragraph
    case Absent => Ok("")
    case Null => Ok("")
    case Present(p) =>
      match p.elements
      case Absent => Ok("")
      case Null => Err(NullElements)
      case Present(els) => ConcatMap(els, RunText)
  }

  /** The text the handler has built when its loops finish, or the exception
      they raise: `doc_data.get("body", {}).get("content", [])` walked block
      by block. */
  function RawText(doc: Document): Result<string>
  {
    match doc.body
    case Absent => Ok("")
    case Null => Err(NullBody)
    case Present(body) =>
      match body.content
      case Absent => Ok("")
      case Null => Err(NullContent)
      case Present(blocks) => ConcatMap(blocks, BlockText)
  }

  /** Walking one more element appends that element's piece. */
  lemma ConcatMapSnoc<T>(xs: seq<T>, x: T, piece: T -> Result<string>)
    ensures ConcatMap(xs + [x], piece) == Then(ConcatMap(xs, piece), piece(x))
  {
    ConcatMapAppend(xs, [x], piece);
    assert [x][1..] == [];
    match piece(x)
    case Err(_) =>
    case Ok(a) => assert a + "" == a;
  }

  /** Extraction distributes over concatenation of the walked list. */
  lemma {:induction false} ConcatMapAppend<T>(xs: seq<T>, ys: seq<T>, piece: T -> Result<string>)
    ensures ConcatMap(xs + ys, piece) == Then(ConcatMap(xs, piece), ConcatMap(ys, piece))
  {
    if xs == [] {
      assert xs + ys == ys;
      match ConcatMap(ys, piece)
      case Err(_) =>
      case Ok(b) => assert "" + b == b;
    } else {
      assert (xs + ys)[1..] == xs[1..] + ys;
      ConcatMapAppend(xs[1..], ys, piece);
      ThenAssociative(piece(xs[0]), ConcatMap(xs[1..], piece), ConcatMap(ys, piece));
    }
  }

  /** The walk raises exactly when one of its pieces raises. */
  lemma {:induction false} ConcatMapOk<T>(xs: seq<T>, piece: T -> Result<string>)
    ensures ConcatMap(xs, piece).Ok? <==> forall k | 0 <= k < |xs| :: piece(xs[k]).Ok?
  {
    if xs != [] {
      ConcatMapOk(xs[1..], piece);
      assert forall k | 1 <= k < |xs| :: xs[1..][k - 1] == xs[k];
    }
  }

  /** The exception that escapes is the one of the first piece that raises. */
  lemma ConcatMapFirstFault<T>(xs: seq<T>, k: int, piece: T -> Result<string>)
    requires 0 <= k < |xs|
    requires ConcatMap(xs[..k], piece).Ok? && piece(xs[k]).Err?
    ensures ConcatMap(xs, piece) == piece(xs[k])
  {
    assert xs == xs[..k] + ([xs[k]] + xs[k + 1..]);
    ConcatMapAppend(xs[..k], [xs[k]] + xs[k + 1..], piece);
  }

  /** A piece that appends the empty text can be dropped from anywhere. */
  lemma ConcatMapNeutral<T>(xs: seq<T>, x: T, ys: seq<T>, piece: T -> Result<string>)
    requires piece(x) == Ok("")
    ensures ConcatMap(xs + [x] + ys, piece) == ConcatMap(xs + ys, piece)
  {
    assert xs + [x] + ys == xs + ([x] + ys);
    ConcatMapAppend(xs, [x] + ys, piece);
    ConcatMapAppend(xs, ys, piece);
    assert ([x] + ys)[1..] == ys;
    match ConcatMap(ys, piece)
    case Err(_) =>
    case Ok(b) => assert "" + b == b;
  }

  /** A content block without a paragraph (missing, or null and so falsy)
      contributes nothing, wherever it stands among the blocks. */
  lemma SkippedBlockAddsNothing(before: seq<StructuralElement>, block: StructuralElement, after: seq<StructuralElement>)
    requires block.paragraph.Absent? || block.paragraph.Null?
    ensures ConcatMap(before + [block] + after, BlockText) == ConcatMap(before + after, BlockText)
  {
    ConcatMapNeutral(before, block, after, BlockText);
  }

  /** A paragraph element without a text run, or whose text run has no
      content, contributes exactly the empty text. */
  lemma EmptyRunAddsNothing(before: seq<ParagraphElement>, el: ParagraphElement, after: seq<ParagraphElement>)
    requires el.textRun.Absent? || (el.textRun.Present? && el.textRun.value.content.Absent?)
    ensures ConcatMap(before + [el] + after, RunText) == ConcatMap(before + after, RunText)
  {
    ConcatMapNeutral(before, el, after, RunText);
  }

  /** No key that the walk dereferences or appends holds `null`. A null
      paragraph is allowed: the walk skips it. */
  predicate RunReadable(el: ParagraphElement)
  {
    && !el.textRun.Null?
    && (el.textRun.Present? ==> !el.textRun.value.content.Null?)
  }

  predicate BlockReadable(block: StructuralElement)
  {
    block.paragraph.Present? ==>
      var elements := block.paragraph.value.elements;
      && !elements.Null?
      && (elements.Present? ==> forall k | 0 <= k < |elements.value| :: RunReadable(elements.value[k]))
  }

  predicate Readable(doc: Document)
  {
    && !doc.body.Null?
    && (doc.body.Present? ==>
          var content := doc.body.value.content;
          && !content.Null?
          && (content.Present? ==> forall k | 0 <= k < |content.value| :: BlockReadable(content.value[k])))
  }

  /** The walk raises exactly when a key it reads holds `null`. */
  lemma ExtractionFailsExactlyOnNull(doc: Document)
    ensures RawText(doc).Ok? <==> Readable(doc)
  {
    if doc.body.Present? && doc.body.value.content.Present? {
      var blocks := doc.body.value.content.value;
      ConcatMapOk(blocks, BlockText);
      forall k | 0 <= k < |blocks|
        ensures BlockText(blocks[k]).Ok? <==> BlockReadable(blocks[k])
      {
        var p := blocks[k].paragraph;
        if p.Present? && p.value.elements.Present? {
          ConcatMapOk(p.value.elements.value, RunText);
        }
      }
    }
  }

  /** The handler's nested loops (`text = ""`, then `text += ...` for each
      element of each paragraph), returning early with the exception a null
      key raises. */
  method ExtractText(doc: Document) returns (r: Result<string>)
    ensures r == RawText(doc)
    ensures doc.body.Absent? ==> r == Ok("")
    ensures doc.body.Present? && doc.body.value.content.Absent? ==> r == Ok("")
  {
    var content: seq<StructuralElement>;
    match doc.body {
      case Absent => content := [];
      case Null => return Err(NullBody);
      case Present(body) =>
        match body.content {
          case Absent => content := [];
          case Null => return Err(NullContent);
          case Present(blocks) => content := blocks;
        }
    }
    var text := "";
    for i := 0 to |content|
      invariant ConcatMap(content[..i], BlockText) == Ok(text)
    {
      var element := content[i];
      ConcatMapSnoc(content[..i], element, BlockText);
      assert content[..i + 1] == content[..i] + [element];
      if !element.paragraph.Present? {
        assert text + "" == text;
        continue;
      }
      var elements: seq<ParagraphElement>;
      match element.paragraph.value.elements {
        case Absent => elements := [];
        case Null =>
          ConcatMapFirstFault(content, i, BlockText);
          return Err(NullElements);
        case Present(els) => elements := els;
      }
      ghost var before := text;
      ghost var added := "";
      for j := 0 to |elements|
        invariant text == before + added
        invariant ConcatMap(elements[..j], RunText) == Ok(added)
      {
        var el := elements[j];
        ConcatMapSnoc(elements[..j], el, RunText);
        assert elements[..j + 1] == elements[..j] + [el];
        var piece: string;
        match el.textRun {
          case Absent => piece := "";
          case Null =>
            ConcatMapFirstFault(elements, j, RunText);
            ConcatMapFirstFault(content, i, BlockText);
            return Err(NullTextRun);
          case Present(run) =>
            match run.content {
              case Absent => piece := "";
              case Null =>
                ConcatMapFirstFault(elements, j, RunText);
                ConcatMapFirstFault(content, i, BlockText);
                return Err(NullRunContent);
              case Present(s) => piece := s;
            }
        }
        text := text + piece;
        added := added + piece;
      }
      assert elements[..|elements|] == elements;
    }
    assert content[..|content|] == content;
    return Ok(text);
  }
}
