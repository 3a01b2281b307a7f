/** Framing on the peer network's TCP streams (src/app/peer2peer.ts). A
    message travels as its JSON text followed by CRLF; the receiving side splits
    every chunk it reads on CRLF and keeps the non-empty pieces. The JSON layer
    itself is opaque here: a text is whatever `JSON.stringify` produced. */
module FrameCodec {
  import opened SeqFacts

  /** `s.indexOf("\r\n") > -1`. */
  predicate ContainsCRLF(s: string)
    decreases |s|
  {
    |s| >= 2 && ((s[0] == '\r' && s[1] == '\n') || ContainsCRLF(s[1..]))
  }

  /** `ContainsCRLF` holds exactly when some position of `s` starts a CRLF. */
  lemma {:induction false} ContainsCRLFAt(s: string)
    ensures ContainsCRLF(s) <==> exists i :: 0 <= i < |s| - 1 && s[i] == '\r' && s[i + 1] == '\n'
    decreases |s|
  {
    if |s| >= 2 {
      ContainsCRLFAt(s[1..]);
      assert forall i :: 0 <= i < |s| - 2 ==> s[1..][i] == s[i + 1];
    }
  }

  /** A text that can travel as one frame. `JSON.stringify` escapes line
      breaks inside strings, so its output is never empty and never holds a
      raw CRLF. */
  predicate Framable(text: string) {
    |text| > 0 && !ContainsCRLF(text)
  }

  /** The bytes `socket.write` sends for one message. */
  function Frame(text: string): (bytes: string)
    ensures Framable(text) ==> SplitRead(bytes) == [text]
  {
    var bytes := text + "\r\n";
    if !Framable(text) then bytes
    else
      SplitFramed(text, "");
      assert bytes == text + "\r\n" + "";
      ContainsFramed(text, "");
      assert Split(bytes) == [text, ""];
      assert DropEmpty([text, ""]) == [text] + DropEmpty([""]);
      bytes
  }

  /** Several frames written one after the other on the same connection. */
  function Frames(texts: seq<string>): (bytes: string)
    decreases |texts|
  {
    if texts == [] then "" else Frame(texts[0]) + Frames(texts[1..])
  }

  /** Writing frames one call after another puts the concatenation of their
      encodings on the stream. */
  lemma {:induction false} FramesAppend(a: seq<string>, b: seq<string>)
    ensures Frames(a + b) == Frames(a) + Frames(b)
    decreases |a|
  {
    if a == [] {
      EmptyAppend(a, b);
    } else {
      ConsAppend(a, b);
      FramesAppend(a[1..], b);
    }
  }

  /** The index of the first CRLF in `s`: no CRLF starts before it. */
  function FirstCRLF(s: string): (i: nat)
    requires ContainsCRLF(s)
    ensures i + 2 <= |s| && s[i] == '\r' && s[i + 1] == '\n'
    ensures !ContainsCRLF(s[..i + 1])
    decreases |s|
  {
    if s[0] == '\r' && s[1] == '\n' then 0
    else
      var j := FirstCRLF(s[1..]);
      assert s[..j + 2][1..] == s[1..][..j + 1];
      1 + j
  }

  /** JavaScript's `s.split("\r\n")`: the pieces between the delimiters, from
      left to right, including empty pieces before, between and after them. */
  function Split(s: string): (parts: seq<string>)
    ensures |parts| >= 1
    ensures forall i :: 0 <= i < |parts| ==> !ContainsCRLF(parts[i])
    decreases |s|
  {
    if !ContainsCRLF(s) then [s]
    else
      var i := FirstCRLF(s);
      PrefixFree(s[..i + 1], i);
      assert s[..i + 1][..i] == s[..i];
      [s[..i]] + Split(s[i + 2..])
  }

  /** A prefix of a text free of CRLF is free of CRLF. */
  lemma {:induction false} PrefixFree(s: string, n: nat)
    requires n <= |s| && !ContainsCRLF(s)
    ensures !ContainsCRLF(s[..n])
    decreases n
  {
    if n >= 2 {
      assert s[..n][1..] == s[1..][..n - 1];
      PrefixFree(s[1..], n - 1);
    }
  }

  /** `parts.filter(m => m !== "")`: the source writes the filter as
      `m !== (undefined || null || "")`, and that parenthesis evaluates to "". */
  function DropEmpty(parts: seq<string>): (kept: seq<string>)
    ensures forall m :: m in kept <==> m in parts && m != ""
    decreases |parts|
  {
    if parts == [] then []
    else (if parts[0] == "" then [] else [parts[0]]) + DropEmpty(parts[1..])
  }

  /** The messages one `data` event yields (peer2peer.ts, processReceivedMessage):
      a chunk holding a CRLF is split and its empty pieces dropped; a chunk
      without one is taken whole. Nothing is kept between two chunks. */
  function SplitRead(read: string): (texts: seq<string>)
    ensures forall i :: 0 <= i < |texts| ==> !ContainsCRLF(texts[i])
  {
    if ContainsCRLF(read) then
      var parts := Split(read);
      assert forall m :: m in parts ==> !ContainsCRLF(m);
      DropEmpty(parts)
    else [read]
  }

  lemma {:induction false} ContainsFramed(text: string, rest: string)
    ensures ContainsCRLF(text + "\r\n" + rest)
    decreases |text|
  {
    var s := text + "\r\n" + rest;
    if text != [] {
      assert s[1..] == text[1..] + "\r\n" + rest;
      ContainsFramed(text[1..], rest);
    }
  }

  /** In a framed text the first delimiter is the one the frame added. */
  lemma {:induction false} FirstCRLFFramed(text: string, rest: string)
    requires !ContainsCRLF(text)
    ensures ContainsCRLF(text + "\r\n" + rest)
    ensures FirstCRLF(text + "\r\n" + rest) == |text|
    decreases |text|
  {
    var s := text + "\r\n" + rest;
    ContainsFramed(text, rest);
    if text != [] {
      assert s[0] == text[0];
      assert !(s[0] == '\r' && s[1] == '\n');
      assert s[1..] == text[1..] + "\r\n" + rest;
      assert |text| >= 2 ==> !ContainsCRLF(text[1..]);
      FirstCRLFFramed(text[1..], rest);
    }
  }

  /** The first piece of a framed text is the text itself. */
  lemma SplitFramed(text: string, rest: string)
    requires !ContainsCRLF(text)
    ensures Split(text + "\r\n" + rest) == [text] + Split(rest)
  {
    var s := text + "\r\n" + rest;
    FirstCRLFFramed(text, rest);
    assert s[..|text|] == text;
    assert s[|text| + 2..] == rest;
  }

  lemma SplitFramesStep(texts: seq<string>, rest: string)
    requires texts != [] && !ContainsCRLF(texts[0])
    ensures Split(Frames(texts) + rest) == [texts[0]] + Split(Frames(texts[1..]) + rest)
  {
    var tail := Frames(texts[1..]) + rest;
    assert Frames(texts) + rest == texts[0] + "\r\n" + tail;
    SplitFramed(texts[0], tail);
  }

  lemma {:induction false} SplitFrames(texts: seq<string>, rest: string)
    requires forall i :: 0 <= i < |texts| ==> !ContainsCRLF(texts[i])
    ensures Split(Frames(texts) + rest) == texts + Split(rest)
    decreases |texts|
  {
    if texts == [] {
      assert Frames(texts) + rest == rest;
    } else {
      SplitFramesStep(texts, rest);
      SplitFrames(texts[1..], rest);
      ConsAppend(texts, Split(rest));
    }
  }

  lemma {:induction false} DropEmptyAppend(a: seq<string>, b: seq<string>)
    ensures DropEmpty(a + b) == DropEmpty(a) + DropEmpty(b)
    decreases |a|
  {
    if a != [] {
      assert (a + b)[1..] == a[1..] + b;
      DropEmptyAppend(a[1..], b);
    } else {
      assert a + b == b;
    }
  }

  lemma {:induction false} DropEmptyKeeps(a: seq<string>)
    requires forall i :: 0 <= i < |a| ==> a[i] != ""
    ensures DropEmpty(a) == a
    decreases |a|
  {
    if a != [] {
      DropEmptyKeeps(a[1..]);
    }
  }

  /** One read that carries whole frames yields exactly their texts, in
      order. A read that carries no frame at all is the empty chunk, which the
      source takes as one (empty) message, so at least one frame is needed. */
  lemma FramesRoundTrip(texts: seq<string>)
    requires |texts| >= 1
    requires forall i :: 0 <= i < |texts| ==> Framable(texts[i])
    ensures SplitRead(Frames(texts)) == texts
  {
    ContainsFramed(texts[0], Frames(texts[1..]));
    SplitFrames(texts, "");
    assert Frames(texts) + "" == Frames(texts);
    assert Split("") == [""];
    DropEmptyAppend(texts, [""]);
    DropEmptyKeeps(texts);
  }

  /** The pieces of a split joined back with CRLF: all but the last are
      complete frames, the last one is what follows the final delimiter. */
  function Rejoin(parts: seq<string>): string
    requires |parts| >= 1
  {
    Frames(parts[..|parts| - 1]) + parts[|parts| - 1]
  }

  lemma RejoinCons(t: string, p: seq<string>)
    requires |p| >= 1
    ensures Rejoin([t] + p) == t + "\r\n" + Rejoin(p)
  {
    var q := ([t] + p)[..|p|];
    assert q[0] == t && q[1..] == p[..|p| - 1];
  }

  /** One unfolding of Split at its first delimiter. */
  lemma SplitUnfold(s: string, i: nat)
    requires ContainsCRLF(s) && i == FirstCRLF(s)
    ensures Split(s) == [s[..i]] + Split(s[i + 2..])
  {
  }

  /** Joining the pieces of a split with CRLF gives back the original. */
  lemma {:induction false} SplitRejoins(s: string)
    ensures Rejoin(Split(s)) == s
    decreases |s|
  {
    if ContainsCRLF(s) {
      var i := FirstCRLF(s);
      SplitUnfold(s, i);
      RejoinCons(s[..i], Split(s[i + 2..]));
      SplitRejoins(s[i + 2..]);
      assert s == s[..i] + "\r\n" + s[i + 2..];
    } else {
      assert Split(s)[..0] == [];
    }
  }

  /** A delimiter found in `x` is still the first one in `x + y`. */
  lemma {:induction false} FirstCRLFAppend(x: string, y: string)
    requires ContainsCRLF(x)
    ensures ContainsCRLF(x + y) && FirstCRLF(x + y) == FirstCRLF(x)
    decreases |x|
  {
    assert (x + y)[0] == x[0] && (x + y)[1] == x[1];
    if !(x[0] == '\r' && x[1] == '\n') {
      assert (x + y)[1..] == x[1..] + y;
      FirstCRLFAppend(x[1..], y);
    }
  }

  /** Splitting `x + y` keeps the complete pieces of `x` and re-splits its
      unfinished last piece together with `y`. */
  lemma {:induction false} SplitAppend(x: string, y: string)
    ensures var px := Split(x);
      Split(x + y) == px[..|px| - 1] + Split(px[|px| - 1] + y)
    decreases |x|
  {
    if ContainsCRLF(x) {
      var i := FirstCRLF(x);
      SplitAppend(x[i + 2..], y);
      SplitAppendStep(x, y, i, Split(x[i + 2..]));
    } else {
      assert Split(x)[..0] == [];
    }
  }

  /** The inductive step of SplitAppend: unfold both splits at the first
      delimiter of `x`, which is also the first one of `x + y`. */
  lemma SplitAppendStep(x: string, y: string, i: nat, p: seq<string>)
    requires ContainsCRLF(x) && i == FirstCRLF(x) && p == Split(x[i + 2..])
    requires Split(x[i + 2..] + y) == p[..|p| - 1] + Split(p[|p| - 1] + y)
    ensures var px := Split(x);
      Split(x + y) == px[..|px| - 1] + Split(px[|px| - 1] + y)
  {
    FirstCRLFAppend(x, y);
    SplitUnfold(x, i);
    SplitUnfold(x + y, i);
    SliceOfAppend(x, y, i);
    ConsDropLast(x[..i], p);
    AppendAssoc([x[..i]], p[..|p| - 1], Split(p[|p| - 1] + y));
  }

  // ---------------------------------------------------------------------------
  // A buffered decoder. NOT WHAT THE SOURCE DOES: processReceivedMessage keeps
  // nothing between two `data` events, so a frame that TCP delivers in two
  // chunks is lost. This variant keeps the unfinished tail of the stream and
  // prepends it to the next chunk; StatelessDecoderSplitsFrame below shows
  // the difference on a concrete pair of chunks. Chunks are text here, so a
  // cut is always between two characters.
  // ---------------------------------------------------------------------------

  /** The texts completed so far and the unfinished tail still waiting for
      its delimiter. */
  datatype Decoded = Decoded(texts: seq<string>, pending: string)

  /** What a run of pieces decodes to: every piece but the last is complete
      (empty ones dropped), the last one waits for its delimiter. */
  function Decode(parts: seq<string>): Decoded
    requires |parts| >= 1
  {
    Decoded(DropEmpty(parts[..|parts| - 1]), parts[|parts| - 1])
  }

  /** Feeding one chunk on top of the pending tail. */
  function Feed(pending: string, chunk: string): (d: Decoded)
    ensures !ContainsCRLF(d.pending)
  {
    Decode(Split(pending + chunk))
  }

  function FeedAll(pending: string, chunks: seq<string>): Decoded
    decreases |chunks|
  {
    if chunks == [] then Decoded([], pending)
    else
      var d := Feed(pending, chunks[0]);
      var rest := FeedAll(d.pending, chunks[1..]);
      Decoded(d.texts + rest.texts, rest.pending)
  }

  function Concat(chunks: seq<string>): string
    decreases |chunks|
  {
    if chunks == [] then "" else chunks[0] + Concat(chunks[1..])
  }

  lemma DecodeAppend(a: seq<string>, t: seq<string>)
    requires |t| >= 1
    ensures Decode(a + t) == Decoded(DropEmpty(a) + Decode(t).texts, Decode(t).pending)
  {
    assert (a + t)[..|a + t| - 1] == a + t[..|t| - 1];
    DropEmptyAppend(a, t[..|t| - 1]);
  }

  /** Feeding `c` and then `r` decodes the same as feeding `c + r`. */
  lemma FeedCompose(pending: string, c: string, r: string)
    ensures var d := Feed(pending, c);
      var e := Feed(d.pending, r);
      Feed(pending, c + r) == Decoded(d.texts + e.texts, e.pending)
  {
    var parts := Split(pending + c);
    var done, t := parts[..|parts| - 1], Split(parts[|parts| - 1] + r);
    assert Feed(pending, c).texts == DropEmpty(done) by {}
    assert Feed(Feed(pending, c).pending, r) == Decode(t) by {}
    SplitCompose(pending, c, r);
    DecodeAppend(done, t);
  }

  /** The pieces of `pending + (c + r)`: the complete pieces of `pending + c`,
      then its unfinished tail split again together with `r`. */
  lemma SplitCompose(pending: string, c: string, r: string)
    ensures var parts := Split(pending + c);
      Split(pending + (c + r)) == parts[..|parts| - 1] + Split(parts[|parts| - 1] + r)
  {
    AppendAssoc(pending, c, r);
    SplitAppend(pending + c, r);
  }

  /** Feeding a stream chunk by chunk decodes the same as feeding it in one
      piece: the buffered decoder does not depend on where the stream was cut
      between characters. */
  lemma {:induction false} FeedAllIsFeed(pending: string, chunks: seq<string>)
    requires !ContainsCRLF(pending)
    ensures FeedAll(pending, chunks) == Feed(pending, Concat(chunks))
    decreases |chunks|
  {
    if chunks == [] {
      assert pending + "" == pending;
    } else {
      var d := Feed(pending, chunks[0]);
      FeedAllIsFeed(d.pending, chunks[1..]);
      FeedCompose(pending, chunks[0], Concat(chunks[1..]));
    }
  }

  /** Wherever the text of the frames is cut into chunks, the buffered decoder
      yields exactly the framed texts and ends with nothing pending. */
  lemma BufferedRoundTrip(chunks: seq<string>, texts: seq<string>)
    requires Concat(chunks) == Frames(texts)
    requires forall i :: 0 <= i < |texts| ==> Framable(texts[i])
    ensures FeedAll("", chunks) == Decoded(texts, "")
  {
    FeedAllIsFeed("", chunks);
    assert "" + Frames(texts) == Frames(texts) + "";
    SplitFrames(texts, "");
    assert Split("") == [""];
    var parts := Split("" + Frames(texts));
    assert parts == texts + [""];
    assert parts[..|parts| - 1] == texts;
    DropEmptyKeeps(texts);
  }

  /** The frame "ab" delivered as the chunks "a" and "b\r\n": the source's
      per-read split produces the two messages "a" and "b" (in the application
      `JSON.parse` would then throw on both), while the buffered decoder
      produces the one message "ab". */
  lemma StatelessDecoderSplitsFrame()
    ensures Concat(["a", "b\r\n"]) == Frames(["ab"])
    ensures SplitRead("a") + SplitRead("b\r\n") == ["a", "b"]
    ensures FeedAll("", ["a", "b\r\n"]).texts == ["ab"]
  {
    assert Concat(["a", "b\r\n"]) == "a" + ("b\r\n" + "") == Frames(["ab"]);
    assert !ContainsCRLF("a");
    ContainsFramed("b", "");
    assert "b" + "\r\n" + "" == "b\r\n";
    SplitFramed("b", "");
    assert Split("") == [""];
    BufferedRoundTrip(["a", "b\r\n"], ["ab"]);
  }
}
