/** The popup's bounded chunker: the text's sentences are packed greedily, in order,
    into chunks of at most `MaxLength` characters; a sentence that alone is longer
    is never cut and becomes a chunk of its own. */
module Chunker {
  import opened JsText
  import opened SentenceRegex

  /** The largest chunk the packer builds from more than one sentence. */
  const MaxLength: nat := 600

  /** The untrimmed chunks packed from `sentences` when `current` is the chunk being
      filled: a sentence joins `current` while the sum fits, otherwise `current` is
      flushed (when it is not empty) and the sentence starts the next chunk. */
  function Pack(sentences: seq<string>, current: string): seq<string>
  {
    if sentences == [] then
      (if current != [] then [current] else [])
    else if |current + sentences[0]| <= MaxLength then
      Pack(sentences[1..], current + sentences[0])
    else
      (if current != [] then [current] else []) + Pack(sentences[1..], sentences[0])
  }

  /** The chunks of `text` before each is trimmed. */
  function RawChunks(text: string): seq<string>
  {
    Pack(Sentences(text), [])
  }

  /** Each string of `xs`, trimmed. */
  function TrimAll(xs: seq<string>): (r: seq<string>)
    ensures |r| == |xs|
    ensures forall k | 0 <= k < |xs| :: r[k] == Trim(xs[k])
  {
    seq(|xs|, k requires 0 <= k < |xs| => Trim(xs[k]))
  }

  /** What the popup's `splitText` returns for `text`. */
  function ChunkText(text: string): seq<string>
  {
    TrimAll(RawChunks(text))
  }

  /** `splitText` of the popup: one pass over the sentences that grows `current`
      and pushes each finished chunk, trimmed. */
  method SplitIntoChunks(text: string) returns (chunks: seq<string>)
    ensures chunks == ChunkText(text)
  {
    chunks := PackSentences(Sentences(text));
  }

  /** The loop of `splitText`, over the sentences already matched. */
  method PackSentences(sentences: seq<string>) returns (chunks: seq<string>)
    ensures chunks == TrimAll(Pack(sentences, []))
  {
    chunks := [];
    var current: string := [];
    ghost var raw: seq<string> := [];
    var i := 0;
    while i < |sentences|
      invariant 0 <= i <= |sentences|
      invariant chunks == TrimAll(raw)
      invariant raw + Pack(sentences[i..], current) == Pack(sentences, [])
    {
      assert sentences[i..][1..] == sentences[i + 1..];
      if |current + sentences[i]| <= MaxLength {
        current := current + sentences[i];
      } else {
        if current != [] {
          chunks := chunks + [Trim(current)];
          raw := raw + [current];
        }
        current := sentences[i];
      }
      i := i + 1;
    }
    if current != [] {
      chunks := chunks + [Trim(current)];
      raw := raw + [current];
    }
    assert raw == Pack(sentences, []);
  }

  /** Nothing of the sentences is lost, duplicated or reordered: the untrimmed chunks
      joined are `current` followed by the sentences joined; and packing never makes
      more chunks than there are sentences (plus `current` when it is not empty). */
  lemma {:induction false} PackKeepsText(sentences: seq<string>, current: string)
    ensures Concat(Pack(sentences, current)) == current + Concat(sentences)
    ensures |Pack(sentences, current)| <= |sentences| + (if current == [] then 0 else 1)
  {
    if sentences == [] {
      assert current + Concat(sentences) == current;
      if current != [] {
        assert Concat([current]) == current + Concat([]);
      }
    } else {
      var s, rest := sentences[0], sentences[1..];
      if |current + s| <= MaxLength {
        PackKeepsText(rest, current + s);
      } else {
        PackKeepsText(rest, s);
        var flushed: seq<string> := if current != [] then [current] else [];
        ConcatAppend(flushed, Pack(rest, s));
        assert Concat(flushed) == current by {
          if current != [] {
            assert Concat([current]) == current + Concat([]);
          }
        }
      }
    }
  }

  /** Every untrimmed chunk is non-empty, and is at most `MaxLength` long unless it is
      `current` or a single sentence. */
  lemma {:induction false} PackBounded(sentences: seq<string>, current: string)
    ensures forall c | c in Pack(sentences, current) ::
              c != [] && (|c| <= MaxLength || c == current || c in sentences)
  {
    if sentences != [] {
      var s, rest := sentences[0], sentences[1..];
      if |current + s| <= MaxLength {
        PackBounded(rest, current + s);
      } else {
        PackBounded(rest, s);
      }
    }
  }

  /** A chunk being filled that is already longer than `MaxLength` is flushed as it
      is: no sentence can join it. */
  lemma OversizedStartsChunk(sentences: seq<string>, current: string)
    requires |current| > MaxLength
    ensures current in Pack(sentences, current)
  {
    if sentences != [] {
      assert |current + sentences[0]| > MaxLength;
      assert Pack(sentences, current) == [current] + Pack(sentences[1..], sentences[0]);
    }
  }

  /** A sentence longer than `MaxLength` is never cut or joined: it is one of the
      untrimmed chunks as it is. */
  lemma {:induction false} PackKeepsOversized(sentences: seq<string>, current: string)
    ensures forall s | s in sentences && |s| > MaxLength :: s in Pack(sentences, current)
  {
    if sentences != [] {
      var s, rest := sentences[0], sentences[1..];
      if |current + s| <= MaxLength {
        PackKeepsOversized(rest, current + s);
      } else {
        PackKeepsOversized(rest, s);
        var flushed: seq<string> := if current != [] then [current] else [];
        assert Pack(sentences, current) == flushed + Pack(rest, s);
        if |s| > MaxLength {
          OversizedStartsChunk(rest, s);
        }
      }
    }
  }

  /** The empty text has no chunks. (`"".match(...)` gives `[""]`, and the empty
      sentence leaves `current` empty, so nothing is pushed.) */
  lemma ChunkTextEmpty()
    ensures ChunkText([]) == []
  {
    assert Matches([]) == [];
    assert Sentences([]) == [[]];
    assert Pack([[]], []) == Pack([], []);
  }

  /** Every chunk is at most `MaxLength` long, or it is the trimmed form of one sentence
      that alone is longer than `MaxLength`; and such a sentence is never cut: its
      trimmed form is a chunk of its own. */
  lemma ChunksBounded(text: string)
    ensures forall k | 0 <= k < |ChunkText(text)| ::
              || |ChunkText(text)[k]| <= MaxLength
              || exists s | s in Sentences(text) :: |s| > MaxLength && ChunkText(text)[k] == Trim(s)
    ensures forall s | s in Sentences(text) && |s| > MaxLength :: Trim(s) in ChunkText(text)
  {
    PackBounded(Sentences(text), []);
    PackKeepsOversized(Sentences(text), []);
    var raw := RawChunks(text);
    forall s | s in Sentences(text) && |s| > MaxLength
      ensures Trim(s) in ChunkText(text)
    {
      var k :| 0 <= k < |raw| && raw[k] == s;
      assert ChunkText(text)[k] == Trim(s);
    }
    forall k | 0 <= k < |ChunkText(text)|
      ensures || |ChunkText(text)[k]| <= MaxLength
              || exists s | s in Sentences(text) :: |s| > MaxLength && ChunkText(text)[k] == Trim(s)
    {
      assert raw[k] in raw;
      if |raw[k]| > MaxLength {
        assert raw[k] in Sentences(text);
      }
    }
  }

  /** The chunks keep the sentences in order: the untrimmed chunks joined are the
      sentences joined, there are no more chunks than sentences, and for a text
      without line breaks the untrimmed chunks joined are the text itself. */
  lemma ChunksKeepOrder(text: string)
    ensures Concat(RawChunks(text)) == Concat(Sentences(text))
    ensures |ChunkText(text)| <= |Sentences(text)|
    ensures (forall m | 0 <= m < |text| :: IsLineChar(text[m])) ==> Concat(RawChunks(text)) == text
  {
    PackKeepsText(Sentences(text), []);
    SentencesShape(text);
  }

  /** A full sentence followed by any other non-empty one: both are pushed as they
      are. */
  lemma PackFullThenOther(s: string, other: string)
    requires |s| == MaxLength && other != []
    ensures Pack([s, other], []) == [s, other]
  {
    assert [] + s == s;
    assert [s, other][1..] == [other];
    assert |s + other| > MaxLength;
    assert Pack([other], s) == [s] + Pack([], other);
  }

  /** A sentence of exactly `MaxLength` characters followed by a blank one (white
      space only, such as the `.+` match of trailing spaces) gives an empty last
      chunk: the blank `current` is pushed, and only then trimmed. */
  lemma BlankTailChunk(s: string, blank: string)
    requires |s| == MaxLength && blank != [] && Trim(blank) == []
    ensures TrimAll(Pack([s, blank], [])) == [Trim(s), []]
  {
    PackFullThenOther(s, blank);
    var r := TrimAll([s, blank]);
    assert |r| == 2 && r[0] == Trim(s) && r[1] == Trim(blank);
  }

  /** Two spaces trim to nothing. */
  lemma TwoSpacesTrimToEmpty()
    ensures Trim("  ") == []
  {
    assert TrimStart("  ") == 2;
  }

  /** `splitText` on 599 non-terminals, a period and two spaces: the sentence fills a
      chunk exactly, and the blank match after it is pushed as an empty chunk. */
  lemma BlankTailText(body: string)
    requires |body| == MaxLength - 1 && forall k | 0 <= k < |body| :: IsNonTerminal(body[k])
    ensures ChunkText(body + ".  ") == [Trim(body + "."), ""]
  {
    SentenceThenBlank(body);
    TwoSpacesTrimToEmpty();
    BlankTailChunk(body + ".", "  ");
  }
}
