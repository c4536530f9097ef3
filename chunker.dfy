/** The greedy, paragraph-preserving message splitter (split_message): the text
    is cut at '\n' into paragraphs, each paragraph plus a '\n' is appended to a
    running chunk, and the chunk is closed when the next paragraph would take it
    past the maximum length. Emitted chunks are whitespace-stripped. */
module Chunker {
  import opened Text

  /** The default maximum chunk length of split_message. */
  const DefaultMaxLength: int := 4000

  /** Each paragraph followed by its '\n', all concatenated. */
  function Terminated(paras: seq<string>): string {
    if paras == [] then "" else paras[0] + "\n" + Terminated(paras[1..])
  }

  function ConcatAll(pieces: seq<string>): string {
    if pieces == [] then "" else pieces[0] + ConcatAll(pieces[1..])
  }

  /** Number of paragraphs held by an unstripped chunk: each ends in one '\n'. */
  function NewlineCount(s: string): nat {
    multiset(s)['\n']
  }

  /** The first paragraph of a chunk. */
  function FirstParagraph(s: string): string {
    Split(s, '\n')[0]
  }

  predicate NoNewlines(paras: seq<string>) {
    forall k :: 0 <= k < |paras| ==> '\n' !in paras[k]
  }

  /** What the final `if current_message:` appends. */
  function Flush(current: string): seq<string> {
    if current != "" then [current] else []
  }

  /** The unstripped chunks emitted when `paras` are processed with `current` as
      the chunk under construction. */
  function Greedy(paras: seq<string>, current: string, maxLength: int): seq<string> {
    if paras == [] then Flush(current)
    else if |current| + |paras[0]| + 1 > maxLength then
      Flush(current) + Greedy(paras[1..], paras[0] + "\n", maxLength)
    else
      Greedy(paras[1..], current + paras[0] + "\n", maxLength)
  }

  /** The unstripped chunks of `text`: split_message's chunks before strip(). */
  function Pieces(text: string, maxLength: int): seq<string> {
    Greedy(Split(text, '\n'), "", maxLength)
  }

  /** split_message(text, max_length). The result is never empty and its k-th
      chunk is the k-th unstripped piece with surrounding whitespace removed. */
  method SplitMessage(text: string, maxLength: int) returns (chunks: seq<string>)
    ensures |chunks| >= 1
    ensures StrippedPieces(chunks, Pieces(text, maxLength))
  {
    chunks := [];
    var current := "";
    var paragraphs := Split(text, '\n');
    ghost var emitted: seq<string> := [];
    for i := 0 to |paragraphs|
      invariant emitted + Greedy(paragraphs[i..], current, maxLength) == Pieces(text, maxLength)
      invariant StrippedPieces(chunks, emitted)
      invariant i > 0 ==> current != ""
    {
      var paragraph := paragraphs[i];
      GreedyAdvance(emitted, paragraphs[i..], current, maxLength);
      assert paragraphs[i..][1..] == paragraphs[i + 1..];
      if |current| + |paragraph| + 1 > maxLength {
        if current != "" {
          StrippedPiecesAppend(chunks, emitted, current);
          chunks := chunks + [Strip(current)];
        } else {
          assert emitted + Flush(current) == emitted;
        }
        emitted := emitted + Flush(current);
        current := paragraph + "\n";
      } else {
        current := current + paragraph + "\n";
      }
    }
    assert Greedy([], current, maxLength) == Flush(current);
    if current != "" {
      StrippedPiecesAppend(chunks, emitted, current);
      chunks := chunks + [Strip(current)];
      emitted := emitted + [current];
    }
  }

  /** One iteration of split_message's loop, seen from the chunks emitted so far. */
  lemma GreedyAdvance(emitted: seq<string>, paras: seq<string>, current: string, maxLength: int)
    requires paras != []
    ensures emitted + Greedy(paras, current, maxLength) ==
            if |current| + |paras[0]| + 1 > maxLength
            then (emitted + Flush(current)) + Greedy(paras[1..], paras[0] + "\n", maxLength)
            else emitted + Greedy(paras[1..], current + paras[0] + "\n", maxLength)
  {
  }

  /** `chunks` are `pieces` stripped, one for one. */
  predicate StrippedPieces(chunks: seq<string>, pieces: seq<string>) {
    |chunks| == |pieces| && forall k :: 0 <= k < |chunks| ==> chunks[k] == Strip(pieces[k])
  }

  lemma StrippedPiecesAppend(chunks: seq<string>, pieces: seq<string>, piece: string)
    requires StrippedPieces(chunks, pieces)
    ensures StrippedPieces(chunks + [Strip(piece)], pieces + [piece])
  {
  }

  /** split_message(text) with the default maximum length. */
  method SplitMessageDefault(text: string) returns (chunks: seq<string>)
    ensures |chunks| >= 1
    ensures StrippedPieces(chunks, Pieces(text, DefaultMaxLength))
  {
    chunks := SplitMessage(text, DefaultMaxLength);
  }

  lemma {:induction false} ConcatAppend(a: seq<string>, b: seq<string>)
    ensures ConcatAll(a + b) == ConcatAll(a) + ConcatAll(b)
  {
    if a != [] {
      assert (a + b)[1..] == a[1..] + b;
      ConcatAppend(a[1..], b);
    } else {
      assert a + b == b;
    }
  }

  lemma {:induction false} TerminatedJoin(parts: seq<string>)
    requires |parts| >= 1
    ensures Terminated(parts) == Join(parts, '\n') + "\n"
  {
    if |parts| > 1 {
      TerminatedJoin(parts[1..]);
    }
  }

  lemma {:induction false} GreedyConcat(paras: seq<string>, current: string, maxLength: int)
    ensures ConcatAll(Greedy(paras, current, maxLength)) == current + Terminated(paras)
  {
    if paras == [] {
    } else if |current| + |paras[0]| + 1 > maxLength {
      ConcatAppend(Flush(current), Greedy(paras[1..], paras[0] + "\n", maxLength));
      GreedyConcat(paras[1..], paras[0] + "\n", maxLength);
    } else {
      GreedyConcat(paras[1..], current + paras[0] + "\n", maxLength);
    }
  }

  /** Concatenating the unstripped chunks gives back the text plus one '\n':
      every paragraph lands whole, once, in its original order. */
  lemma PiecesReconstruct(text: string, maxLength: int)
    ensures ConcatAll(Pieces(text, maxLength)) == text + "\n"
  {
    GreedyConcat(Split(text, '\n'), "", maxLength);
    TerminatedJoin(Split(text, '\n'));
    JoinSplit(text, '\n');
  }

  /** A piece is a run of whole paragraphs, each closed by '\n'; only a piece
      holding a single paragraph may be longer than the maximum. */
  predicate WellFormedPiece(piece: string, maxLength: int) {
    |piece| >= 1 && piece[|piece| - 1] == '\n' && (NewlineCount(piece) >= 2 ==> |piece| <= maxLength)
  }

  lemma AppendParagraph(current: string, p: string)
    requires '\n' !in p
    ensures NewlineCount(current + p + "\n") == NewlineCount(current) + 1
  {
    assert multiset(current + p + "\n") == multiset(current) + multiset(p) + multiset("\n");
    assert multiset(p)['\n'] == 0;
  }

  lemma {:induction false} GreedyShape(paras: seq<string>, current: string, maxLength: int)
    requires NoNewlines(paras)
    requires current == "" || WellFormedPiece(current, maxLength)
    ensures forall k :: 0 <= k < |Greedy(paras, current, maxLength)| ==>
              WellFormedPiece(Greedy(paras, current, maxLength)[k], maxLength)
  {
    if paras != [] {
      var p := paras[0];
      assert NoNewlines(paras[1..]) by {
        forall k | 0 <= k < |paras[1..]| ensures '\n' !in paras[1..][k] {
          assert paras[1..][k] == paras[k + 1];
        }
      }
      if |current| + |p| + 1 > maxLength {
        AppendParagraph("", p);
        assert "" + p + "\n" == p + "\n";
        GreedyShape(paras[1..], p + "\n", maxLength);
      } else {
        AppendParagraph(current, p);
        GreedyShape(paras[1..], current + p + "\n", maxLength);
      }
    }
  }

  /** Every unstripped chunk is a non-empty run of whole paragraphs, each closed
      by '\n'; a chunk holding two or more paragraphs is at most `maxLength`
      long, so an oversize chunk is a single paragraph on its own. */
  lemma PiecesShape(text: string, maxLength: int)
    ensures forall k :: 0 <= k < |Pieces(text, maxLength)| ==>
              WellFormedPiece(Pieces(text, maxLength)[k], maxLength)
  {
    GreedyShape(Split(text, '\n'), "", maxLength);
  }

  /** An oversize chunk holds exactly one paragraph, one that is itself too long. */
  lemma OversizePieceIsOneParagraph(text: string, maxLength: int, k: nat)
    requires k < |Pieces(text, maxLength)| && |Pieces(text, maxLength)[k]| > maxLength
    ensures var piece := Pieces(text, maxLength)[k];
            NewlineCount(piece) == 1 && piece == FirstParagraph(piece) + "\n"
            && |FirstParagraph(piece)| + 1 > maxLength
  {
    PiecesShape(text, maxLength);
    var piece := Pieces(text, maxLength)[k];
    var body := piece[..|piece| - 1];
    assert piece == body + "\n";
    assert multiset(piece) == multiset(body) + multiset("\n");
    assert '\n' !in body;
    assert body == body + "\n"[..0];
    FirstParagraphOf(body, "");
  }

  lemma {:induction false} GreedyStart(paras: seq<string>, current: string, maxLength: int)
    requires current != ""
    ensures |Greedy(paras, current, maxLength)| >= 1
    ensures |current| <= |Greedy(paras, current, maxLength)[0]|
    ensures Greedy(paras, current, maxLength)[0][..|current|] == current
  {
    if paras != [] && |current| + |paras[0]| + 1 <= maxLength {
      var next := current + paras[0] + "\n";
      GreedyStart(paras[1..], next, maxLength);
      assert next[..|current|] == current;
    }
  }

  lemma FirstParagraphOf(p: string, rest: string)
    requires '\n' !in p
    ensures FirstParagraph(p + "\n" + rest) == p
  {
    SplitAround(p, rest, '\n');
  }

  /** No chunk could have taken the first paragraph of the chunk after it. */
  predicate IsGreedySplit(pieces: seq<string>, maxLength: int) {
    forall k :: 0 <= k < |pieces| - 1 ==> |pieces[k]| + |FirstParagraph(pieces[k + 1])| + 1 > maxLength
  }

  lemma {:induction false} GreedyIsGreedy(paras: seq<string>, current: string, maxLength: int)
    requires NoNewlines(paras)
    ensures IsGreedySplit(Greedy(paras, current, maxLength), maxLength)
  {
    if paras != [] {
      var p := paras[0];
      assert NoNewlines(paras[1..]) by {
        forall k | 0 <= k < |paras[1..]| ensures '\n' !in paras[1..][k] {
          assert paras[1..][k] == paras[k + 1];
        }
      }
      if |current| + |p| + 1 > maxLength {
        var tail := Greedy(paras[1..], p + "\n", maxLength);
        GreedyIsGreedy(paras[1..], p + "\n", maxLength);
        if current != "" {
          GreedyStart(paras[1..], p + "\n", maxLength);
          var first := tail[0];
          assert first == p + "\n" + first[|p| + 1..];
          FirstParagraphOf(p, first[|p| + 1..]);
          var g := Greedy(paras, current, maxLength);
          assert g == [current] + tail;
          forall k | 0 <= k < |g| - 1
            ensures |g[k]| + |FirstParagraph(g[k + 1])| + 1 > maxLength
          {
            if k > 0 {
              assert g[k] == tail[k - 1] && g[k + 1] == tail[k];
            }
          }
        }
      } else {
        GreedyIsGreedy(paras[1..], current + p + "\n", maxLength);
      }
    }
  }

  /** A new chunk is started only when the next paragraph does not fit: each
      unstripped chunk plus the next chunk's first paragraph and its '\n' is
      longer than `maxLength`. */
  lemma PiecesGreedy(text: string, maxLength: int)
    ensures IsGreedySplit(Pieces(text, maxLength), maxLength)
  {
    GreedyIsGreedy(Split(text, '\n'), "", maxLength);
  }

  /** The paragraphs of an unstripped chunk: its text before the final '\n',
      split at '\n'. */
  function ParagraphsOf(piece: string): seq<string>
    requires |piece| >= 1
  {
    Split(piece[..|piece| - 1], '\n')
  }

  /** The newline count of an unstripped chunk is its number of paragraphs,
      the measure `WellFormedPiece` bounds. */
  lemma PieceParagraphCount(piece: string)
    requires |piece| >= 1 && piece[|piece| - 1] == '\n'
    ensures NewlineCount(piece) == |ParagraphsOf(piece)|
  {
    var body := piece[..|piece| - 1];
    assert piece == body + "\n";
    assert multiset(piece) == multiset(body) + multiset("\n");
    SplitCount(body, '\n');
  }

  function AllParagraphs(pieces: seq<string>): seq<string>
    requires forall k :: 0 <= k < |pieces| ==> |pieces[k]| >= 1
  {
    if pieces == [] then [] else ParagraphsOf(pieces[0]) + AllParagraphs(pieces[1..])
  }

  lemma {:induction false} ParagraphsOfConcat(pieces: seq<string>)
    requires |pieces| >= 1
    requires forall k :: 0 <= k < |pieces| ==> |pieces[k]| >= 1 && pieces[k][|pieces[k]| - 1] == '\n'
    ensures var c := ConcatAll(pieces);
            |c| >= 1 && c[|c| - 1] == '\n' && Split(c[..|c| - 1], '\n') == AllParagraphs(pieces)
  {
    var head := pieces[0];
    var a := head[..|head| - 1];
    assert head == a + "\n";
    if |pieces| == 1 {
      assert ConcatAll(pieces) == head;
    } else {
      var rest := pieces[1..];
      ParagraphsOfConcat(rest);
      var cr := ConcatAll(rest);
      var b := cr[..|cr| - 1];
      assert cr == b + "\n";
      var c := ConcatAll(pieces);
      assert c == head + cr;
      assert c == a + "\n" + b + "\n";
      assert c[..|c| - 1] == a + "\n" + b;
      SplitAround(a, b, '\n');
    }
  }

  /** The paragraphs of the chunks, in chunk order, are exactly the paragraphs
      of the text: none is split, dropped, duplicated or moved. */
  lemma PiecesParagraphs(text: string, maxLength: int)
    ensures forall k :: 0 <= k < |Pieces(text, maxLength)| ==> |Pieces(text, maxLength)[k]| >= 1
    ensures AllParagraphs(Pieces(text, maxLength)) == Split(text, '\n')
  {
    var ps := Pieces(text, maxLength);
    PiecesShape(text, maxLength);
    PiecesReconstruct(text, maxLength);
    assert |ps| >= 1;
    ParagraphsOfConcat(ps);
    var c := ConcatAll(ps);
    assert c[..|c| - 1] == text;
  }

  /** Each piece holds at least one paragraph. */
  lemma {:induction false} AtMostOnePiecePerParagraph(pieces: seq<string>)
    requires forall k :: 0 <= k < |pieces| ==> |pieces[k]| >= 1
    ensures |AllParagraphs(pieces)| >= |pieces|
  {
    if pieces != [] {
      AtMostOnePiecePerParagraph(pieces[1..]);
    }
  }

  /** There are never more chunks than paragraphs in the text. */
  lemma ChunksAtMostParagraphs(text: string, maxLength: int)
    ensures |Pieces(text, maxLength)| <= |Split(text, '\n')|
  {
    PiecesParagraphs(text, maxLength);
    AtMostOnePiecePerParagraph(Pieces(text, maxLength));
  }

  lemma {:induction false} GreedyFits(paras: seq<string>, current: string, maxLength: int)
    requires |current| + |Terminated(paras)| <= maxLength
    ensures Greedy(paras, current, maxLength) == Flush(current + Terminated(paras))
  {
    if paras != [] {
      var p := paras[0];
      assert Terminated(paras) == p + "\n" + Terminated(paras[1..]);
      assert current + p + "\n" + Terminated(paras[1..]) == current + Terminated(paras);
      GreedyFits(paras[1..], current + p + "\n", maxLength);
    } else {
      assert current + Terminated(paras) == current;
    }
  }

  /** A text that fits, with its final '\n', is sent as one chunk: the whole
      text stripped. */
  lemma ShortTextIsOneChunk(text: string, maxLength: int)
    requires |text| + 1 <= maxLength
    ensures Pieces(text, maxLength) == [text + "\n"]
  {
    TerminatedJoin(Split(text, '\n'));
    JoinSplit(text, '\n');
    GreedyFits(Split(text, '\n'), "", maxLength);
    assert "" + (text + "\n") == text + "\n";
  }

  /** The empty text gives a single chunk, the empty string. */
  lemma EmptyTextGivesOneEmptyChunk(maxLength: int)
    ensures Pieces("", maxLength) == ["\n"]
    ensures Strip(Pieces("", maxLength)[0]) == ""
  {
    assert Split("", '\n') == [""];
    GreedyAdvance([], [""], "", maxLength);
    assert [""][1..] == [];
    assert "" + "" + "\n" == "\n";
    assert Greedy([], "\n", maxLength) == ["\n"];
    assert SpaceBetween("\n", 0, 1);
  }
}
