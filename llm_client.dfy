/**
 * The table-image request planner of the Ollama client
 * (`parse_table_images` and the stitching in `_parse_images_internal`).
 *
 * The images of one table are sent as one request when they are few or
 * short; when there are several and together they are taller than
 * 6000 px, they are cut greedily into chunks of at most 4000 px, each
 * chunk is sent on its own, and the non-empty answers are joined with
 * newlines. Several images in one request are stitched top to bottom on
 * a canvas as wide as the widest.
 *
 * Opening an image is modelled by the dimensions it carries; the model
 * request is a function parameter `parse`, from the images and title of
 * one request to its answer.
 */
module LlmClient {
  import opened Wrappers
  import opened Strings
  import SectionRecords

  /** An image file with the dimensions PIL reports for it. */
  datatype Image = Image(path: string, width: nat, height: nat)

  const MaxHeightLimit: nat := 6000
  const MaxChunkHeight: nat := 4000
  const PartSuffix: string := " (Part)"

  /** The total height of images stacked on top of each other. */
  function Height(images: seq<Image>): nat
  {
    if images == [] then 0 else Height(images[..|images| - 1]) + images[|images| - 1].height
  }

  /** The width of the widest image. */
  function MaxWidth(images: seq<Image>): nat
    requires |images| > 0
  {
    if |images| == 1 then images[0].width
    else
      var w := MaxWidth(images[..|images| - 1]);
      if images[|images| - 1].width > w then images[|images| - 1].width else w
  }

  /** The chunks, one after the other. */
  function Flatten(chunks: seq<seq<Image>>): seq<Image>
  {
    if chunks == [] then [] else Flatten(chunks[..|chunks| - 1]) + chunks[|chunks| - 1]
  }

  // ---------------------------------------------------------------------------
  // Chunking
  // ---------------------------------------------------------------------------

  /** The chunks sent so far, the chunk being filled and its height. */
  datatype ChunkState = ChunkState(done: seq<seq<Image>>, current: seq<Image>, height: nat)

  /** One image: the chunk being filled is sent first when the image would take it over 4000 px. */
  function Step(st: ChunkState, img: Image): ChunkState
  {
    if st.height + img.height > MaxChunkHeight && st.current != [] then
      ChunkState(st.done + [st.current], [img], img.height)
    else
      ChunkState(st.done, st.current + [img], st.height + img.height)
  }

  function Scan(images: seq<Image>): ChunkState
  {
    if images == [] then ChunkState([], [], 0) else Step(Scan(images[..|images| - 1]), images[|images| - 1])
  }

  /** The chunks of `images`: those sent in the loop, then the one left over. */
  function Chunking(images: seq<Image>): seq<seq<Image>>
  {
    var st := Scan(images);
    if st.current != [] then st.done + [st.current] else st.done
  }

  /** Each chunk was sent only because the first image of the next one would have taken it over 4000 px. */
  predicate Greedy(chunks: seq<seq<Image>>)
  {
    forall i :: 0 <= i < |chunks| - 1 ==> Overflows(chunks, i)
  }

  /** Chunk `i` plus the first image of chunk `i + 1` is taller than 4000 px. */
  predicate Overflows(chunks: seq<seq<Image>>, i: nat)
    requires i + 1 < |chunks|
  {
    |chunks[i + 1]| > 0 && Height(chunks[i]) + chunks[i + 1][0].height > MaxChunkHeight
  }

  /** Every chunk holds an image, and one holding several is at most 4000 px tall. */
  predicate Bounded(chunks: seq<seq<Image>>)
  {
    forall i :: 0 <= i < |chunks| ==> |chunks[i]| > 0 && (|chunks[i]| >= 2 ==> Height(chunks[i]) <= MaxChunkHeight)
  }

  /** What holds of the scan state after the images `xs`. */
  predicate Good(st: ChunkState, xs: seq<Image>)
  {
    && Flatten(st.done) + st.current == xs
    && st.height == Height(st.current)
    && (st.current == [] ==> st.done == [])
    && Bounded(st.done)
    && (|st.current| >= 2 ==> Height(st.current) <= MaxChunkHeight)
    && (st.current != [] ==> Greedy(st.done + [st.current]))
  }

  lemma HeightSnoc(xs: seq<Image>, img: Image)
    ensures Height(xs + [img]) == Height(xs) + img.height
  {
    assert (xs + [img])[..|xs|] == xs;
  }

  lemma FlattenSnoc(chunks: seq<seq<Image>>, c: seq<Image>)
    ensures Flatten(chunks + [c]) == Flatten(chunks) + c
  {
    assert (chunks + [c])[..|chunks|] == chunks;
  }

  /** Sending the current chunk opens a new one with the image that did not fit. */
  lemma FlushStep(st: ChunkState, xs: seq<Image>, img: Image)
    requires Good(st, xs) && st.height + img.height > MaxChunkHeight && st.current != []
    ensures Good(Step(st, img), xs + [img])
  {
    var done := st.done + [st.current];
    FlattenSnoc(st.done, st.current);
    assert Flatten(done) + [img] == xs + [img];
    assert [img][..0] == [];
    assert Height([img]) == img.height;
    assert Bounded(done) by {
      forall i | 0 <= i < |done|
        ensures |done[i]| > 0 && (|done[i]| >= 2 ==> Height(done[i]) <= MaxChunkHeight)
      {
        if i < |st.done| {
          assert done[i] == st.done[i];
        }
      }
    }
    assert Greedy(done + [[img]]) by {
      var cs := done + [[img]];
      forall i | 0 <= i < |cs| - 1
        ensures Overflows(cs, i)
      {
        if i < |done| - 1 {
          assert cs[i] == done[i] && cs[i + 1] == done[i + 1];
          assert Overflows(done, i);
        }
      }
    }
  }

  /** An image that fits joins the current chunk. */
  lemma JoinStep(st: ChunkState, xs: seq<Image>, img: Image)
    requires Good(st, xs) && !(st.height + img.height > MaxChunkHeight && st.current != [])
    ensures Good(Step(st, img), xs + [img])
  {
    var cur := st.current + [img];
    HeightSnoc(st.current, img);
    assert Flatten(st.done) + cur == xs + [img];
    if st.current != [] {
      var cs := st.done + [cur];
      var old_cs := st.done + [st.current];
      assert cur[0] == st.current[0];
      forall i | 0 <= i < |cs| - 1
        ensures Overflows(cs, i)
      {
        assert cs[i] == old_cs[i];
        assert cs[i + 1][0] == old_cs[i + 1][0];
        assert Overflows(old_cs, i);
      }
    } else {
      assert cur == [img];
      assert Greedy([] + [cur]);
    }
  }

  lemma {:induction false} ScanGood(images: seq<Image>)
    ensures Good(Scan(images), images)
  {
    if images != [] {
      var n := |images| - 1;
      ScanGood(images[..n]);
      assert images[..n] + [images[n]] == images;
      var st := Scan(images[..n]);
      if st.height + images[n].height > MaxChunkHeight && st.current != [] {
        FlushStep(st, images[..n], images[n]);
      } else {
        JoinStep(st, images[..n], images[n]);
      }
    }
  }

  lemma FlattenOne(chunks: seq<seq<Image>>)
    requires |chunks| == 1
    ensures Flatten(chunks) == chunks[0]
  {
    assert chunks[..0] == [];
  }

  /** The chunks, concatenated in order, give back the images. */
  lemma ChunkingRestores(images: seq<Image>)
    ensures Flatten(Chunking(images)) == images
  {
    ScanGood(images);
    var st := Scan(images);
    if st.current != [] {
      FlattenSnoc(st.done, st.current);
    } else {
      assert Flatten(st.done) + [] == Flatten(st.done);
    }
  }

  /** No chunk is empty, and only a chunk of a single image can be taller than 4000 px. */
  lemma ChunkingBounded(images: seq<Image>)
    ensures Bounded(Chunking(images))
  {
    ScanGood(images);
    var st := Scan(images);
    if st.current != [] {
      var cs := st.done + [st.current];
      forall i | 0 <= i < |cs|
        ensures |cs[i]| > 0 && (|cs[i]| >= 2 ==> Height(cs[i]) <= MaxChunkHeight)
      {
        if i < |st.done| {
          assert cs[i] == st.done[i];
        }
      }
    }
  }

  /** A chunk is sent only when the next image would not fit in it. */
  lemma ChunkingGreedy(images: seq<Image>)
    ensures Greedy(Chunking(images))
  {
    ScanGood(images);
  }

  /** Several images taller than 4000 px together never go out as a single chunk. */
  lemma ChunkingSplits(images: seq<Image>)
    requires |images| > 1 && Height(images) > MaxChunkHeight
    ensures |Chunking(images)| >= 2
  {
    ChunkingRestores(images);
    ChunkingBounded(images);
    var cs := Chunking(images);
    if |cs| == 1 {
      FlattenOne(cs);
    }
  }

  // ---------------------------------------------------------------------------
  // Requests
  // ---------------------------------------------------------------------------

  /** The non-empty answers to one request per chunk, in chunk order. */
  function Responses(chunks: seq<seq<Image>>, title: string, parse: (seq<Image>, Option<string>) -> Option<string>): seq<string>
  {
    if chunks == [] then []
    else
      var md := parse(chunks[|chunks| - 1], Some(title));
      Responses(chunks[..|chunks| - 1], title, parse) + (if SectionRecords.Truthy(md) then [md.value] else [])
  }

  /**
   * The answer of `parse_table_images`. With a missing title the chunk
   * title `table_title + " (Part)"` raises before the first chunk request,
   * and the exception handler falls back to a single request for all the
   * images.
   */
  function TableMarkdown(images: seq<Image>, title: Option<string>, parse: (seq<Image>, Option<string>) -> Option<string>): Option<string>
  {
    if images == [] then None
    else if |images| > 1 && Height(images) > MaxHeightLimit && title.Some? then
      Some(Join(Responses(Chunking(images), title.value + PartSuffix, parse), "\n"))
    else parse(images, title)
  }

  lemma ResponsesSnoc(chunks: seq<seq<Image>>, c: seq<Image>, title: string, parse: (seq<Image>, Option<string>) -> Option<string>)
    ensures var md := parse(c, Some(title));
            Responses(chunks + [c], title, parse) ==
            Responses(chunks, title, parse) + (if SectionRecords.Truthy(md) then [md.value] else [])
  {
    assert (chunks + [c])[..|chunks|] == chunks;
  }

  lemma ScanSnoc(images: seq<Image>, i: nat)
    requires i < |images|
    ensures Scan(images[..i + 1]) == Step(Scan(images[..i]), images[i])
  {
    assert images[..i + 1][..i] == images[..i];
  }

  /** The chunking loop: each chunk is sent as soon as the next image does not fit, the last one after the loop. */
  method SendChunks(images: seq<Image>, partTitle: string, parse: (seq<Image>, Option<string>) -> Option<string>)
    returns (fullMarkdown: seq<string>)
    ensures fullMarkdown == Responses(Chunking(images), partTitle, parse)
  {
    fullMarkdown := [];
    var currentChunk: seq<Image> := [];
    var currentHeight: nat := 0;
    ghost var sent: seq<seq<Image>> := [];
    for i := 0 to |images|
      invariant ChunkState(sent, currentChunk, currentHeight) == Scan(images[..i])
      invariant fullMarkdown == Responses(sent, partTitle, parse)
    {
      ScanSnoc(images, i);
      var h := images[i].height;
      if currentHeight + h > MaxChunkHeight && currentChunk != [] {
        var chunkMd := parse(currentChunk, Some(partTitle));
        ResponsesSnoc(sent, currentChunk, partTitle, parse);
        if SectionRecords.Truthy(chunkMd) {
          fullMarkdown := fullMarkdown + [chunkMd.value];
        }
        sent := sent + [currentChunk];
        currentChunk := [];
        currentHeight := 0;
      }
      currentChunk := currentChunk + [images[i]];
      currentHeight := currentHeight + h;
    }
    assert images[..|images|] == images;
    if currentChunk != [] {
      var chunkMd := parse(currentChunk, Some(partTitle));
      ResponsesSnoc(sent, currentChunk, partTitle, parse);
      if SectionRecords.Truthy(chunkMd) {
        fullMarkdown := fullMarkdown + [chunkMd.value];
      }
      sent := sent + [currentChunk];
    }
  }

  /** `parse_table_images`: no images, chunked requests, or one request for all. */
  method ParseTableImages(images: seq<Image>, title: Option<string>, parse: (seq<Image>, Option<string>) -> Option<string>)
    returns (r: Option<string>)
    ensures r == TableMarkdown(images, title, parse)
  {
    if images == [] {
      return None;
    }
    if |images| > 1 && Height(images) > MaxHeightLimit && title.Some? {
      var fullMarkdown := SendChunks(images, title.value + PartSuffix, parse);
      return Some(Join(fullMarkdown, "\n"));
    }
    r := parse(images, title);
  }

  /** With one image, or images no taller than 6000 px together, a single request goes out. */
  lemma SingleRequest(images: seq<Image>, title: Option<string>, parse: (seq<Image>, Option<string>) -> Option<string>)
    requires images != [] && (|images| == 1 || Height(images) <= MaxHeightLimit || title.None?)
    ensures TableMarkdown(images, title, parse) == parse(images, title)
  {
  }

  // ---------------------------------------------------------------------------
  // Stitching
  // ---------------------------------------------------------------------------

  /** The widest image sets the canvas width: it is no narrower than any, and as wide as one. */
  lemma {:induction false} MaxWidthSpec(images: seq<Image>)
    requires |images| > 0
    ensures forall k :: 0 <= k < |images| ==> images[k].width <= MaxWidth(images)
    ensures exists k :: 0 <= k < |images| && images[k].width == MaxWidth(images)
  {
    if |images| > 1 {
      var n := |images| - 1;
      MaxWidthSpec(images[..n]);
      var j :| 0 <= j < n && images[..n][j].width == MaxWidth(images[..n]);
      assert forall k :: 0 <= k < n ==> images[k] == images[..n][k];
      if images[n].width > MaxWidth(images[..n]) {
        assert images[n].width == MaxWidth(images);
      } else {
        assert images[j].width == MaxWidth(images);
      }
    } else {
      assert images[0].width == MaxWidth(images);
    }
  }

  /**
   * The stitched canvas of `_parse_images_internal`: as wide as the widest
   * image, as tall as all of them, and image `k` pasted at the left edge,
   * at the height of the images before it.
   */
  method StitchLayout(images: seq<Image>) returns (width: nat, height: nat, offsets: seq<nat>)
    requires |images| > 0
    ensures width == MaxWidth(images) && height == Height(images)
    ensures |offsets| == |images|
    ensures forall k :: 0 <= k < |images| ==> offsets[k] == Height(images[..k])
  {
    width := MaxWidth(images);
    height := Height(images);
    var yOffset: nat := 0;
    offsets := [];
    for k := 0 to |images|
      invariant |offsets| == k && yOffset == Height(images[..k])
      invariant forall j :: 0 <= j < k ==> offsets[j] == Height(images[..j])
    {
      offsets := offsets + [yOffset];
      HeightSnoc(images[..k], images[k]);
      assert images[..k] + [images[k]] == images[..k + 1];
      yOffset := yOffset + images[k].height;
    }
  }

  /** Each image is placed right below the previous one. */
  lemma PlacedBelow(images: seq<Image>, k: nat)
    requires k < |images|
    ensures Height(images[..k + 1]) == Height(images[..k]) + images[k].height
  {
    HeightSnoc(images[..k], images[k]);
    assert images[..k] + [images[k]] == images[..k + 1];
  }

  /** Heights of a run of images add up. */
  lemma {:induction false} HeightAppend(a: seq<Image>, b: seq<Image>)
    ensures Height(a + b) == Height(a) + Height(b)
  {
    if b != [] {
      var n := |b| - 1;
      HeightAppend(a, b[..n]);
      assert (a + b)[..|a + b| - 1] == a + b[..n];
      assert (a + b)[|a + b| - 1] == b[n];
    } else {
      assert a + b == a;
    }
  }

  /** Each image lies inside the canvas. */
  lemma PlacedInside(images: seq<Image>, k: nat)
    requires k < |images|
    ensures Height(images[..k]) + images[k].height <= Height(images)
    ensures images[k].width <= MaxWidth(images)
  {
    PlacedBelow(images, k);
    HeightAppend(images[..k + 1], images[k + 1..]);
    assert images[..k + 1] + images[k + 1..] == images;
    MaxWidthSpec(images);
  }
}
