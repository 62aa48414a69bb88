/** The article detail page's content blocks (main/views.py, article_detail):
    the article text is cut into paragraphs at newlines, and paragraphs and
    uploaded images are laid out index by index, paragraph first, with the
    images that have no paragraph of their own appended at the end. */
module Blocks {
  import opened Text

  /** One entry of the `blocks` list handed to the template: a dict whose
      'type' is 'paragraph' or 'image' and whose 'content' is the text or the
      image. */
  datatype Block<Img> = Paragraph(text: string) | Image(image: Img)

  // ---------------------------------------------------------------------
  // Paragraphs
  // ---------------------------------------------------------------------

  /** `[p.strip() for p in pieces if p.strip()]` */
  function KeepStripped(pieces: seq<string>): (ps: seq<string>)
    ensures |ps| <= |pieces|
    ensures forall k :: 0 <= k < |ps| ==> ps[k] != [] && IsStripped(ps[k])
  {
    if pieces == [] then []
    else
      var p := Strip(pieces[|pieces| - 1]);
      KeepStripped(pieces[..|pieces| - 1]) + (if p != [] then [p] else [])
  }

  /** The paragraphs of an article: the pieces of `content.split('\n')`
      that are not blank, each stripped. None is empty, none has whitespace
      at either end, none holds a newline. */
  function Paragraphs(content: string): (ps: seq<string>)
    ensures forall k :: 0 <= k < |ps| ==> ps[k] != [] && IsStripped(ps[k]) && NoNewline(ps[k])
  {
    var pieces := SplitLines(content);
    KeepStrippedNoNewline(pieces);
    KeepStripped(pieces)
  }

  lemma {:induction false} KeepStrippedNoNewline(pieces: seq<string>)
    requires forall k :: 0 <= k < |pieces| ==> NoNewline(pieces[k])
    ensures forall k :: 0 <= k < |KeepStripped(pieces)| ==> NoNewline(KeepStripped(pieces)[k])
  {
    if pieces != [] {
      var n := |pieces| - 1;
      KeepStrippedNoNewline(pieces[..n]);
      var s := pieces[n];
      var i, j := StripInfix(s);
      assert forall k :: 0 <= k < |Strip(s)| ==> Strip(s)[k] == s[i + k];
    }
  }

  /** The positions, among `pieces`, of the pieces that are not blank, in
      increasing order. */
  function KeptIndices(pieces: seq<string>): (idx: seq<nat>)
    ensures forall k :: 0 <= k < |idx| ==> idx[k] < |pieces|
    ensures forall k, l :: 0 <= k < l < |idx| ==> idx[k] < idx[l]
    ensures forall j :: 0 <= j < |pieces| ==> (j in idx <==> Strip(pieces[j]) != [])
  {
    if pieces == [] then []
    else
      var n := |pieces| - 1;
      var prev := KeptIndices(pieces[..n]);
      assert forall j :: 0 <= j < n ==> pieces[..n][j] == pieces[j];
      if Strip(pieces[n]) != [] then prev + [n] else prev
  }

  /** Paragraph k is the stripped piece at the k-th kept position: together
      with KeptIndices, the paragraphs are exactly the non-blank pieces,
      stripped, in their original order. */
  lemma {:induction false} KeepStrippedFollowsPieces(pieces: seq<string>)
    ensures |KeptIndices(pieces)| == |KeepStripped(pieces)|
    ensures forall k :: 0 <= k < |KeepStripped(pieces)| ==>
      KeepStripped(pieces)[k] == Strip(pieces[KeptIndices(pieces)[k]])
  {
    if pieces != [] {
      var n := |pieces| - 1;
      var init := pieces[..n];
      KeepStrippedFollowsPieces(init);
      var ps, idx := KeepStripped(init), KeptIndices(init);
      forall k | 0 <= k < |ps| ensures ps[k] == Strip(pieces[idx[k]]) {
        assert init[idx[k]] == pieces[idx[k]];
      }
      if Strip(pieces[n]) != [] {
        assert KeepStripped(pieces) == ps + [Strip(pieces[n])];
        assert KeptIndices(pieces) == idx + [n];
      } else {
        assert KeepStripped(pieces) == ps;
        assert KeptIndices(pieces) == idx;
      }
    }
  }

  lemma ParagraphsFollowPieces(content: string)
    ensures var idx := KeptIndices(SplitLines(content));
      |idx| == |Paragraphs(content)| &&
      forall k :: 0 <= k < |idx| ==> Paragraphs(content)[k] == Strip(SplitLines(content)[idx[k]])
  {
    KeepStrippedFollowsPieces(SplitLines(content));
  }

  /** Pieces that are already stripped and non-empty are all kept, unchanged. */
  lemma {:induction false} KeepStrippedFixed(pieces: seq<string>)
    requires forall k :: 0 <= k < |pieces| ==> pieces[k] != [] && IsStripped(pieces[k])
    ensures KeepStripped(pieces) == pieces
  {
    if pieces != [] {
      var n := |pieces| - 1;
      StripStripped(pieces[n]);
      KeepStrippedFixed(pieces[..n]);
      assert pieces[..n] + [pieces[n]] == pieces;
    }
  }

  /** Splitting and filtering is idempotent: the paragraphs, joined again
      with newlines, split into the same paragraphs. */
  lemma ParagraphsIdempotent(content: string)
    ensures Paragraphs(JoinLines(Paragraphs(content))) == Paragraphs(content)
  {
    var ps := Paragraphs(content);
    if ps == [] {
      assert SplitLines([]) == [[]];
      assert AllSpace([]);
    } else {
      SplitJoin(ps);
      KeepStrippedFixed(ps);
    }
  }

  /** Empty (or all-whitespace) content has no paragraphs. */
  lemma BlankContentHasNoParagraphs(content: string)
    requires AllSpace(content)
    ensures Paragraphs(content) == []
  {
    var pieces := SplitLines(content);
    forall j | 0 <= j < |pieces| ensures Strip(pieces[j]) == [] {
      BlankPiece(pieces, j);
    }
    KeepStrippedAllBlank(pieces);
  }

  lemma {:induction false} KeepStrippedAllBlank(pieces: seq<string>)
    requires forall j :: 0 <= j < |pieces| ==> Strip(pieces[j]) == []
    ensures KeepStripped(pieces) == []
  {
    if pieces != [] {
      KeepStrippedAllBlank(pieces[..|pieces| - 1]);
    }
  }

  /** Every piece of an all-whitespace text is all whitespace. */
  lemma {:induction false} BlankPiece(pieces: seq<string>, j: nat)
    requires j < |pieces|
    requires AllSpace(JoinLines(pieces))
    ensures AllSpace(pieces[j])
  {
    if |pieces| > 1 {
      var s := JoinLines(pieces);
      assert s == pieces[0] + "\n" + JoinLines(pieces[1..]);
      assert forall k :: 0 <= k < |pieces[0]| ==> s[k] == pieces[0][k];
      var rest := JoinLines(pieces[1..]);
      assert forall k :: 0 <= k < |rest| ==> s[|pieces[0]| + 1 + k] == rest[k];
      if j > 0 {
        BlankPiece(pieces[1..], j - 1);
      }
    }
  }

  // ---------------------------------------------------------------------
  // Composition
  // ---------------------------------------------------------------------

  /** Python's `images[k:]`, empty when `k` is past the end. */
  function Drop<T>(s: seq<T>, k: nat): (r: seq<T>)
    ensures |r| == if k <= |s| then |s| - k else 0
    ensures forall j :: 0 <= j < |r| ==> r[j] == s[k + j]
  {
    if k <= |s| then s[k..] else []
  }

  function ImageBlocks<Img>(imgs: seq<Img>): (r: seq<Block<Img>>)
    ensures |r| == |imgs|
    ensures forall k :: 0 <= k < |r| ==> r[k] == Image(imgs[k])
  {
    seq(|imgs|, k requires 0 <= k < |imgs| => Image(imgs[k]))
  }

  function ParagraphBlocks<Img>(ps: seq<string>): (r: seq<Block<Img>>)
    ensures |r| == |ps|
    ensures forall k :: 0 <= k < |r| ==> r[k] == Paragraph(ps[k])
  {
    seq(|ps|, k requires 0 <= k < |ps| => Paragraph(ps[k]))
  }

  /** The layout the detail page promises, defined head first: a paragraph,
      then the image with the same index if there is one; once the
      paragraphs run out, the remaining images. */
  function Interleaved<Img>(ps: seq<string>, imgs: seq<Img>): seq<Block<Img>>
  {
    if ps == [] then ImageBlocks(imgs)
    else if imgs == [] then [Paragraph(ps[0])] + Interleaved(ps[1..], imgs)
    else [Paragraph(ps[0]), Image(imgs[0])] + Interleaved(ps[1..], imgs[1..])
  }

  /** article_detail's `blocks`: a paragraph block for each paragraph,
      followed by the image block with the same index while images last,
      then an image block for each of `images[len(paragraphs):]`. */
  method ComposeBlocks<Img>(paragraphs: seq<string>, images: seq<Img>) returns (blocks: seq<Block<Img>>)
    ensures blocks == Interleaved(paragraphs, images)
  {
    blocks := [];
    assert paragraphs[0..] == paragraphs && Drop(images, 0) == images;
    for i := 0 to |paragraphs|
      invariant blocks + Interleaved(paragraphs[i..], Drop(images, i)) == Interleaved(paragraphs, images)
    {
      InterleavedStep(blocks, paragraphs, images, i);
      blocks := blocks + [Paragraph(paragraphs[i])];
      if i < |images| {
        blocks := blocks + [Image(images[i])];
      }
    }
    assert paragraphs[|paragraphs|..] == [];
    blocks := blocks + ImageBlocks(Drop(images, |paragraphs|));
  }

  /** What article_detail hands to the template for an article's content
      and its images: the paragraphs of the content laid out with the
      images. */
  method ArticleBlocks<Img>(content: string, images: seq<Img>) returns (blocks: seq<Block<Img>>)
    ensures blocks == Interleaved(Paragraphs(content), images)
  {
    var paragraphs := Paragraphs(content);
    blocks := ComposeBlocks(paragraphs, images);
  }

  /** One turn of the loop in ComposeBlocks: the layout of the paragraphs
      from index i on starts with paragraph i and, if there is one, image i. */
  lemma InterleavedStep<Img>(done: seq<Block<Img>>, ps: seq<string>, imgs: seq<Img>, i: nat)
    requires i < |ps|
    requires done + Interleaved(ps[i..], Drop(imgs, i)) == Interleaved(ps, imgs)
    ensures done + [Paragraph(ps[i])] + (if i < |imgs| then [Image(imgs[i])] else [])
      + Interleaved(ps[i + 1..], Drop(imgs, i + 1)) == Interleaved(ps, imgs)
  {
    assert ps[i..][1..] == ps[i + 1..];
    if i < |imgs| {
      assert Drop(imgs, i)[1..] == Drop(imgs, i + 1);
    }
  }

  // ---------------------------------------------------------------------
  // What the layout guarantees
  // ---------------------------------------------------------------------

  /** Nothing is dropped or added: one block per paragraph and per image. */
  lemma {:induction false} InterleavedLength<Img>(ps: seq<string>, imgs: seq<Img>)
    ensures |Interleaved(ps, imgs)| == |ps| + |imgs|
  {
    if ps != [] {
      InterleavedLength(ps[1..], if imgs == [] then imgs else imgs[1..]);
    }
  }

  /** For every index i that both lists have, block 2i is paragraph i and
      block 2i+1 is image i. */
  lemma {:induction false} InterleavedPairs<Img>(ps: seq<string>, imgs: seq<Img>, i: nat)
    requires i < |ps| && i < |imgs|
    ensures |Interleaved(ps, imgs)| > 2 * i + 1
    ensures Interleaved(ps, imgs)[2 * i] == Paragraph(ps[i])
    ensures Interleaved(ps, imgs)[2 * i + 1] == Image(imgs[i])
  {
    InterleavedLength(ps, imgs);
    if i > 0 {
      InterleavedPairs(ps[1..], imgs[1..], i - 1);
    }
  }

  /** After the 2·min(p, n) paired blocks come the leftover paragraphs when
      there are more paragraphs than images, and the leftover images
      otherwise. */
  lemma {:induction false} InterleavedTail<Img>(ps: seq<string>, imgs: seq<Img>)
    ensures var m := if |ps| < |imgs| then |ps| else |imgs|;
      |Interleaved(ps, imgs)| >= 2 * m &&
      Interleaved(ps, imgs)[2 * m..] ==
        if |ps| > |imgs| then ParagraphBlocks(ps[|imgs|..]) else ImageBlocks(imgs[|ps|..])
  {
    InterleavedLength(ps, imgs);
    if ps == [] {
    } else if imgs == [] {
      InterleavedTail(ps[1..], imgs);
      assert Interleaved(ps, imgs) == [Paragraph(ps[0])] + Interleaved(ps[1..], imgs);
    } else {
      InterleavedTail(ps[1..], imgs[1..]);
      var r := Interleaved(ps, imgs);
      assert r[2..] == Interleaved(ps[1..], imgs[1..]);
      if |ps| > |imgs| {
        assert ps[1..][|imgs| - 1..] == ps[|imgs|..];
      } else {
        assert imgs[1..][|ps| - 1..] == imgs[|ps|..];
      }
    }
  }

  /** The text of the paragraph blocks, in order. */
  function Texts<Img>(blocks: seq<Block<Img>>): seq<string>
  {
    if blocks == [] then []
    else (if blocks[0].Paragraph? then [blocks[0].text] else []) + Texts(blocks[1..])
  }

  /** The images of the image blocks, in order. */
  function Images<Img>(blocks: seq<Block<Img>>): seq<Img>
  {
    if blocks == [] then []
    else (if blocks[0].Image? then [blocks[0].image] else []) + Images(blocks[1..])
  }

  lemma {:induction false} ImageBlocksProject<Img>(imgs: seq<Img>)
    ensures Texts(ImageBlocks(imgs)) == [] && Images(ImageBlocks(imgs)) == imgs
  {
    if imgs != [] {
      ImageBlocksProject(imgs[1..]);
      assert ImageBlocks(imgs)[1..] == ImageBlocks(imgs[1..]);
    }
  }

  /** Keeping only the paragraph blocks gives back the paragraphs, keeping
      only the image blocks gives back the images: the layout never drops,
      duplicates or reorders either input. */
  lemma {:induction false} InterleavedProjections<Img>(ps: seq<string>, imgs: seq<Img>)
    ensures Texts(Interleaved(ps, imgs)) == ps
    ensures Images(Interleaved(ps, imgs)) == imgs
  {
    if ps == [] {
      ImageBlocksProject(imgs);
    } else if imgs == [] {
      InterleavedProjections(ps[1..], imgs);
      var r := Interleaved(ps, imgs);
      assert r[1..] == Interleaved(ps[1..], imgs);
      assert [ps[0]] + ps[1..] == ps;
    } else {
      InterleavedProjections(ps[1..], imgs[1..]);
      var r := Interleaved(ps, imgs);
      assert r[1..][1..] == Interleaved(ps[1..], imgs[1..]);
      assert [ps[0]] + ps[1..] == ps;
      assert [imgs[0]] + imgs[1..] == imgs;
    }
  }

  /** Without paragraphs the page is exactly the images, in order. */
  lemma ArticleWithoutTextShowsImages<Img>(content: string, images: seq<Img>)
    requires AllSpace(content)
    ensures Interleaved(Paragraphs(content), images) == ImageBlocks(images)
  {
    BlankContentHasNoParagraphs(content);
  }

  /** Without images the page is exactly the paragraphs, in order. */
  lemma {:induction false} TextWithoutImages<Img>(ps: seq<string>)
    ensures Interleaved<Img>(ps, []) == ParagraphBlocks(ps)
  {
    if ps != [] {
      TextWithoutImages<Img>(ps[1..]);
    }
  }

  // ---------------------------------------------------------------------
  // Worked examples
  // ---------------------------------------------------------------------

  /** Two paragraphs separated by a blank line, with one image (e.g.
      "Hello\n\nWorld"): the blank line is dropped and the image sits
      between the two paragraphs. */
  lemma TwoParagraphsOneImage<Img>(first: string, second: string, img: Img)
    requires first != [] && IsStripped(first) && NoNewline(first)
    requires second != [] && IsStripped(second) && NoNewline(second)
    ensures Interleaved(Paragraphs(first + "\n\n" + second), [img])
      == [Paragraph(first), Image(img), Paragraph(second)]
  {
    var content := first + "\n\n" + second;
    assert content == first + "\n" + ([] + "\n" + second);
    SplitSingle(second);
    SplitCons([], second);
    SplitCons(first, [] + "\n" + second);
    var pieces := [first, [], second];
    assert SplitLines(content) == pieces;
    StripStripped(first);
    StripStripped(second);
    assert pieces[..2][..1] == [first];
    assert KeepStripped([first]) == [first];
    assert KeepStripped(pieces[..2]) == [first];
    assert KeepStripped(pieces) == [first, second];
    var ps := [first, second];
    assert ps[1..] == [second];
    assert Interleaved(ps[1..], [img][1..]) == [Paragraph(second)];
  }

  /** A single line of text without images (e.g. "Only text") gives that
      line alone. */
  lemma OnlyText<Img>(line: string)
    requires line != [] && IsStripped(line) && NoNewline(line)
    ensures Interleaved<Img>(Paragraphs(line), []) == [Paragraph(line)]
  {
    SplitSingle(line);
    StripStripped(line);
  }

  /** Empty content with two images gives the two images. */
  lemma OnlyImages<Img>(img1: Img, img2: Img)
    ensures Interleaved(Paragraphs(""), [img1, img2]) == [Image(img1), Image(img2)]
  {
    BlankContentHasNoParagraphs("");
  }
}
