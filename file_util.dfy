/**
 * Two helpers of `file_util.py`: `read_large_file`, which hands out the
 * lines of a file in blocks of a fixed number of lines, and
 * `if_contains_words`, which tells for each document whether one of its
 * whitespace-separated words is in a given set.
 */
module FileUtil {
  import opened PyText

  /** The blocks put back together. */
  function Flatten(blocks: seq<seq<string>>): seq<string>
    decreases |blocks|
  {
    if blocks == [] then [] else Flatten(blocks[..|blocks| - 1]) + blocks[|blocks| - 1]
  }

  /** The `block_size` of `read_large_file` when the caller gives none. */
  const DefaultBlockSize: int := 10000

  /** `read_large_file` over the lines of the file, with the blocks it yields
      collected in order. A `block_size` of 0 or below never matches a
      block's length, so everything comes in one block. */
  method ReadLargeFile(lines: seq<string>, blockSize: int := DefaultBlockSize) returns (blocks: seq<seq<string>>)
    ensures Flatten(blocks) == lines
    ensures forall i :: 0 <= i < |blocks| ==> blocks[i] != []
    ensures blockSize > 0 ==> forall i :: 0 <= i < |blocks| - 1 ==> |blocks[i]| == blockSize
    ensures blockSize > 0 ==> forall i :: 0 <= i < |blocks| ==> |blocks[i]| <= blockSize
    ensures blockSize <= 0 ==> |blocks| <= 1
    ensures lines == [] ==> blocks == []
  {
    blocks := [];
    var block: seq<string> := [];
    for i := 0 to |lines|
      invariant Flatten(blocks) + block == lines[..i]
      invariant forall j :: 0 <= j < |blocks| ==> blocks[j] != [] && |blocks[j]| == blockSize
      invariant blockSize > 0 ==> |block| < blockSize
      invariant blockSize <= 0 ==> blocks == []
    {
      block := block + [lines[i]];
      if |block| == blockSize {
        assert Flatten(blocks + [block]) == Flatten(blocks) + block by {
          assert (blocks + [block])[..|blocks|] == blocks;
        }
        blocks := blocks + [block];
        block := [];
      }
    }
    assert lines[..|lines|] == lines;
    // yield the last block
    if block != [] {
      assert Flatten(blocks + [block]) == Flatten(blocks) + block by {
        assert (blocks + [block])[..|blocks|] == blocks;
      }
      blocks := blocks + [block];
    }
  }

  /** `set(doc.split())` */
  function WordSet(doc: string): set<string> {
    set i | 0 <= i < |Words(doc)| :: Words(doc)[i]
  }

  /** Some whitespace-separated word of `doc` is in `wordsSet`. */
  predicate HasWordIn(doc: string, wordsSet: set<string>) {
    exists k :: 0 <= k < |Words(doc)| && Words(doc)[k] in wordsSet
  }

  /** `if_contains_words(doc_list, words_set)`: whether the intersection of a
      document's words with `wordsSet` has a positive size. */
  function IfContainsWords(docList: seq<string>, wordsSet: set<string>): (r: seq<bool>)
    ensures |r| == |docList|
    ensures forall i :: 0 <= i < |docList| ==> (r[i] <==> HasWordIn(docList[i], wordsSet))
  {
    var nWordsInDoc := seq(|docList|, i requires 0 <= i < |docList| => |WordSet(docList[i]) * wordsSet|);
    var r := seq(|docList|, i requires 0 <= i < |docList| => nWordsInDoc[i] > 0);
    assert forall i :: 0 <= i < |docList| ==> (r[i] <==> HasWordIn(docList[i], wordsSet)) by {
      forall i | 0 <= i < |docList|
        ensures r[i] <==> HasWordIn(docList[i], wordsSet)
      {
        CommonWord(docList[i], wordsSet);
      }
    }
    r
  }

  /** The intersection is non-empty exactly when some word of the document is in the set. */
  lemma CommonWord(doc: string, wordsSet: set<string>)
    ensures |WordSet(doc) * wordsSet| > 0 <==> HasWordIn(doc, wordsSet)
  {
    var common := WordSet(doc) * wordsSet;
    if |common| > 0 {
      var w :| w in common;
      var k :| 0 <= k < |Words(doc)| && Words(doc)[k] == w;
      assert Words(doc)[k] in wordsSet;
    }
    if HasWordIn(doc, wordsSet) {
      var k :| 0 <= k < |Words(doc)| && Words(doc)[k] in wordsSet;
      assert Words(doc)[k] in common;
      assert |common| >= |{Words(doc)[k]}| == 1 by {
        assert {Words(doc)[k]} <= common;
      }
    }
  }
}
