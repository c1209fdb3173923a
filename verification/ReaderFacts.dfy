/** What the stream chunker of lib/data.py guarantees: the heads it parses
    put back together give the file's text, so the integers it yields are the
    tokens of the whole file, in order. The corrected chunker has this for
    every file; the chunker as written has it when every full read holds a
    separator, and loses it otherwise. */
module ReaderFacts {
  import opened Wrappers
  import opened Seqs
  import opened Text
  import opened Common
  import opened Data

  /** The heads, joined by the separator, give back the text, except that a
      text ending in a separator may lose that last separator (it is cut
      off with an empty carried tail). */
  predicate Reassembles(heads: seq<string>, text: string) {
    (heads == [] && text == "") ||
    (heads != [] && (text == Join(heads) || text == Join(heads) + Sep))
  }

  /** Every read of a file-like list after a short one is empty, so the rest
      of the file is empty. */
  lemma {:induction false} ConcatExhausted(blocks: seq<string>)
    requires forall i :: 0 <= i < |blocks| ==> blocks[i] == ""
    ensures Concat(blocks) == ""
    decreases |blocks|
  {
    if |blocks| > 0 {
      ConcatExhausted(blocks[1..]);
    }
  }

  /** After a short read the file is exhausted. */
  lemma AfterShortRead(blocks: seq<string>, bufferSize: nat)
    requires FileLike(blocks, bufferSize)
    requires |NextRead(blocks)| < bufferSize
    ensures NextRead(LaterReads(blocks)) == ""
    ensures Concat(LaterReads(blocks)) == ""
  {
    if |blocks| > 0 {
      ConcatExhausted(blocks[1..]);
    }
  }

  /** The text of the reads is the next read followed by the later ones. */
  lemma ConcatSplit(blocks: seq<string>)
    ensures Concat(blocks) == NextRead(blocks) + Concat(LaterReads(blocks))
  {
  }

  /** The reads after the next one are file-like too. */
  lemma LaterFileLike(blocks: seq<string>, bufferSize: nat)
    requires FileLike(blocks, bufferSize)
    ensures FileLike(LaterReads(blocks), bufferSize)
  {
    if |blocks| > 0 {
      forall i | 0 <= i < |blocks| - 1 ensures LaterReads(blocks)[i] == blocks[i + 1] {
      }
    }
  }

  /** After a short read nothing is left of the file and no head follows. */
  lemma ShortReadEnds(blocks: seq<string>, bufferSize: nat)
    requires bufferSize > 0 && FileLike(blocks, bufferSize)
    requires |NextRead(blocks)| < bufferSize
    ensures Concat(LaterReads(blocks)) == ""
    ensures ReadHeads(LaterReads(blocks), "", bufferSize) == []
  {
    AfterShortRead(blocks, bufferSize);
    assert "" + NextRead(LaterReads(blocks)) == "";
  }

  /** A head cut before a separator, put in front of heads that reassemble
      the text after that separator, reassembles the whole. */
  lemma ReassemblesCons(head: string, heads: seq<string>, text: string)
    requires Reassembles(heads, text)
    ensures Reassembles([head] + heads, head + Sep + text)
  {
    if heads == [] {
      assert Join([head]) == head;
    } else {
      JoinCons(head, heads);
    }
  }

  /** The last head: a buffer shorter than the buffer size, or a short read
      left without a separator, is the whole rest of the file. */
  lemma ReassembleLast(blocks: seq<string>, tail: string, bufferSize: nat)
    requires bufferSize > 0 && FileLike(blocks, bufferSize)
    requires |NextRead(blocks)| < bufferSize
    requires |tail + NextRead(blocks)| < bufferSize || LastSep(tail + NextRead(blocks)).None?
    ensures Reassembles(ReadHeads(blocks, tail, bufferSize), tail + Concat(blocks))
  {
    var chunk := tail + NextRead(blocks);
    ConcatSplit(blocks);
    ShortReadEnds(blocks, bufferSize);
    assert tail + Concat(blocks) == chunk;
    if chunk != "" {
      assert ReadHeads(blocks, tail, bufferSize) == [chunk];
      assert Join([chunk]) == chunk;
    }
  }

  /** A full buffer cut at its last separator: the head before it, then the
      heads of the carried text after it and the rest of the file. */
  lemma ReassembleCut(blocks: seq<string>, tail: string, bufferSize: nat)
    requires bufferSize > 0
    requires |tail + NextRead(blocks)| >= bufferSize && LastSep(tail + NextRead(blocks)).Some?
    requires var chunk := tail + NextRead(blocks);
      var rest := chunk[LastSep(chunk).value + 2..];
      Reassembles(ReadHeads(LaterReads(blocks), rest, bufferSize), rest + Concat(LaterReads(blocks)))
    ensures Reassembles(ReadHeads(blocks, tail, bufferSize), tail + Concat(blocks))
  {
    var chunk := tail + NextRead(blocks);
    var i := LastSep(chunk).value;
    ReadHeadsCut(blocks, tail, bufferSize);
    CutReassembles(blocks, tail, chunk, i, ReadHeads(blocks, tail, bufferSize),
                   ReadHeads(LaterReads(blocks), chunk[i + 2..], bufferSize));
  }

  /** Heads that start with the text before a separator of the first buffer
      reassemble the file when the heads after it reassemble the rest. */
  lemma CutReassembles(blocks: seq<string>, tail: string, chunk: string, i: nat,
                       all: seq<string>, heads: seq<string>)
    requires chunk == tail + NextRead(blocks) && SepAt(chunk, i)
    requires all == [chunk[..i]] + heads
    requires Reassembles(heads, chunk[i + 2..] + Concat(LaterReads(blocks)))
    ensures Reassembles(all, tail + Concat(blocks))
  {
    var more := chunk[i + 2..] + Concat(LaterReads(blocks));
    CutJoin(chunk, i, Concat(LaterReads(blocks)));
    ConcatSplit(blocks);
    ReassemblesCons(chunk[..i], heads, more);
  }

  /** The corrected chunker on a full buffer holding a separator. */
  lemma ReadHeadsCut(blocks: seq<string>, tail: string, bufferSize: nat)
    requires bufferSize > 0
    requires |tail + NextRead(blocks)| >= bufferSize && LastSep(tail + NextRead(blocks)).Some?
    ensures var chunk := tail + NextRead(blocks);
      var i := LastSep(chunk).value;
      ReadHeads(blocks, tail, bufferSize) == [chunk[..i]] + ReadHeads(LaterReads(blocks), chunk[i + 2..], bufferSize)
  {
  }

  /** Cutting a text at a separator and putting the pieces back together
      around it gives the text. */
  lemma CutJoin(chunk: string, i: nat, more: string)
    requires SepAt(chunk, i)
    ensures chunk[..i] + Sep + (chunk[i + 2..] + more) == chunk + more
  {
    assert chunk == chunk[..i] + Sep + chunk[i + 2..];
  }

  /** A full buffer without a separator after a full read is carried whole. */
  lemma ReassembleCarry(blocks: seq<string>, tail: string, bufferSize: nat)
    requires bufferSize > 0
    requires |NextRead(blocks)| >= bufferSize && LastSep(tail + NextRead(blocks)).None?
    requires Reassembles(ReadHeads(LaterReads(blocks), tail + NextRead(blocks), bufferSize),
                         tail + NextRead(blocks) + Concat(LaterReads(blocks)))
    ensures Reassembles(ReadHeads(blocks, tail, bufferSize), tail + Concat(blocks))
  {
    ConcatSplit(blocks);
    assert tail + Concat(blocks) == tail + NextRead(blocks) + Concat(LaterReads(blocks));
  }

  /** The heads of the corrected chunker reassemble into the carried tail
      followed by the rest of the file. */
  lemma {:induction false} ReadHeadsReassemble(blocks: seq<string>, tail: string, bufferSize: nat)
    requires bufferSize > 0 && FileLike(blocks, bufferSize)
    ensures Reassembles(ReadHeads(blocks, tail, bufferSize), tail + Concat(blocks))
    decreases |blocks|, |tail|
  {
    var chunk := tail + NextRead(blocks);
    LaterFileLike(blocks, bufferSize);
    if |chunk| < bufferSize || (LastSep(chunk).None? && |NextRead(blocks)| < bufferSize) {
      ReassembleLast(blocks, tail, bufferSize);
    } else if LastSep(chunk).Some? {
      ReadHeadsReassemble(LaterReads(blocks), chunk[LastSep(chunk).value + 2..], bufferSize);
      ReassembleCut(blocks, tail, bufferSize);
    } else {
      ReadHeadsReassemble(LaterReads(blocks), chunk, bufferSize);
      ReassembleCarry(blocks, tail, bufferSize);
    }
  }

  /** Splitting a concatenation of token lists and parsing it succeeds when
      both halves parse, and gives the two results one after the other. */
  lemma ParseTokensAppend(a: seq<string>, b: seq<string>)
    ensures ParseTokens(a + b).Some? <==> ParseTokens(a).Some? && ParseTokens(b).Some?
    ensures ParseTokens(a + b).Some? ==>
      ParseTokens(a + b).value == ParseTokens(a).value + ParseTokens(b).value
  {
    if ParseTokens(a).Some? && ParseTokens(b).Some? {
      ParseTokensAppendBoth(a, b);
    } else {
      ParseTokensAppendFails(a, b);
    }
  }

  lemma {:induction false} ParseTokensAppendBoth(a: seq<string>, b: seq<string>)
    requires ParseTokens(a).Some? && ParseTokens(b).Some?
    ensures ParseTokens(a + b) == Some(ParseTokens(a).value + ParseTokens(b).value)
    decreases |a|
  {
    if |a| == 0 {
      assert a + b == b;
      assert ParseTokens(a) == Some([]);
      assert [] + ParseTokens(b).value == ParseTokens(b).value;
    } else {
      ParseTokensAppendBoth(a[1..], b);
      SplitFirst(a, b);
      ParseTokensAppendStep(a[0], a[1..], b);
    }
  }

  lemma SplitFirst(a: seq<string>, b: seq<string>)
    requires |a| > 0
    ensures a == [a[0]] + a[1..]
    ensures a + b == [a[0]] + (a[1..] + b)
  {
    assert a == [a[0]] + a[1..];
  }

  /** `ParseTokens` on a list with a first token. */
  lemma ParseTokensPrepend(h: string, t: seq<string>)
    ensures ParseTokens([h] + t) ==
      if ParseInt(h).Some? && ParseTokens(t).Some? then Some([ParseInt(h).value] + ParseTokens(t).value) else None
  {
    assert ([h] + t)[0] == h && ([h] + t)[1..] == t;
  }

  /** One step of the induction: the first token goes in front. */
  lemma ParseTokensAppendStep(h: string, t: seq<string>, b: seq<string>)
    requires ParseTokens([h] + t).Some? && ParseTokens(b).Some?
    requires ParseTokens(t + b) == Some(ParseTokens(t).value + ParseTokens(b).value)
    ensures ParseTokens([h] + (t + b)) == Some(ParseTokens([h] + t).value + ParseTokens(b).value)
  {
    ParseTokensPrepend(h, t);
    ParseTokensPrepend(h, t + b);
    var x := ParseInt(h).value;
    var u := ParseTokens(t).value;
    var v := ParseTokens(b).value;
    assert [x] + (u + v) == ([x] + u) + v;
  }

  lemma ParseTokensAppendFails(a: seq<string>, b: seq<string>)
    requires ParseTokens(a).None? || ParseTokens(b).None?
    ensures ParseTokens(a + b).None?
  {
    if ParseTokens(a).None? {
      var i :| 0 <= i < |a| && ParseInt(a[i]).None?;
      assert (a + b)[i] == a[i];
    } else {
      var i :| 0 <= i < |b| && ParseInt(b[i]).None?;
      assert (a + b)[|a| + i] == b[i];
    }
  }

  /** Parsing the heads one by one succeeds exactly when parsing their join
      does, and yields the same integers in the same order. */
  lemma {:induction false} ParseHeadsJoin(heads: seq<string>)
    requires |heads| >= 1
    ensures ParseHeads(heads).failure.None? <==> ParseTokens(Split(Join(heads))).Some?
    ensures ParseHeads(heads).failure.None? ==>
      Flatten(ParseHeads(heads).chunks) == ParseTokens(Split(Join(heads))).value
    decreases |heads|
  {
    var h := heads[0];
    var rest := heads[1..];
    if |heads| == 1 {
      assert Join(heads) == h;
      if ParseHead(h).Some? {
        assert ParseHeads(heads).chunks == [ParseHead(h).value];
        assert Flatten([ParseHead(h).value]) == ParseHead(h).value;
      }
    } else {
      assert heads == [h] + rest;
      JoinCons(h, rest);
      SplitAppend(h, Join(rest));
      ParseTokensAppend(Split(h), Split(Join(rest)));
      ParseHeadsJoin(rest);
      if ParseHead(h).Some? && ParseHeads(rest).failure.None? {
        assert ParseHeads(heads).chunks == [ParseHead(h).value] + ParseHeads(rest).chunks;
      }
    }
  }

  /** The corrected chunker yields the integers of the whole file, in file
      order, and fails exactly when some token of the file is not an integer.
      A file ending in a separator is excluded: its last token is empty. */
  lemma ReadChunksMatchText(text: string, bufferSize: nat)
    requires bufferSize > 0 && text != "" && !EndsWithSep(text)
    ensures ReadChunks(FileReads(text, bufferSize), bufferSize).failure.None? <==>
      ParseTokens(Split(text)).Some?
    ensures ReadChunks(FileReads(text, bufferSize), bufferSize).failure.None? ==>
      Flatten(ReadChunks(FileReads(text, bufferSize), bufferSize).chunks) == ParseTokens(Split(text)).value
  {
    var blocks := FileReads(text, bufferSize);
    ReadHeadsReassemble(blocks, "", bufferSize);
    assert "" + Concat(blocks) == text;
    var heads := ReadHeads(blocks, "", bufferSize);
    assert text == Join(heads) by {
      if text == Join(heads) + Sep {
        assert SepAt(text, |text| - 2);
      }
    }
    ParseHeadsJoin(heads);
  }

  // ---------------------------------------------------------------------
  // The chunker as written

  /** Every read that fills the buffer holds a separator. */
  predicate FullReadsHaveSep(blocks: seq<string>, bufferSize: nat) {
    forall i :: 0 <= i < |blocks| && |blocks[i]| >= bufferSize ==> HasSep(blocks[i])
  }

  lemma SepAfterPrefix(tail: string, read: string)
    requires HasSep(read)
    ensures HasSep(tail + read)
  {
    var i :| 0 <= i < |read| && SepAt(read, i);
    assert SepAt(tail + read, |tail| + i);
  }

  /** The later reads keep the property. */
  lemma FullReadsLater(blocks: seq<string>, bufferSize: nat)
    requires FullReadsHaveSep(blocks, bufferSize)
    ensures FullReadsHaveSep(LaterReads(blocks), bufferSize)
  {
    if |blocks| > 0 {
      forall i | 0 <= i < |blocks| - 1 ensures LaterReads(blocks)[i] == blocks[i + 1] {
      }
    }
  }

  /** A full next read holds a separator, and so does the buffer it ends. */
  lemma FullReadHasSep(blocks: seq<string>, tail: string, bufferSize: nat)
    requires bufferSize > 0 && FullReadsHaveSep(blocks, bufferSize) && |NextRead(blocks)| >= bufferSize
    ensures HasSep(tail + NextRead(blocks))
  {
    assert |blocks| > 0;
    assert HasSep(blocks[0]);
    SepAfterPrefix(tail, blocks[0]);
  }

  /** When every full read holds a separator, the chunker as written never
      reaches its separator-free branch on a full read, and so agrees with
      the corrected one. */
  lemma {:induction false} AsWrittenAgrees(blocks: seq<string>, tail: string, bufferSize: nat)
    requires bufferSize > 0 && FullReadsHaveSep(blocks, bufferSize)
    ensures ReadHeadsAsWritten(blocks, tail, bufferSize) == ReadHeads(blocks, tail, bufferSize)
    decreases |blocks|, |tail|
  {
    var read := NextRead(blocks);
    var chunk := tail + read;
    var later := LaterReads(blocks);
    FullReadsLater(blocks, bufferSize);
    if chunk == "" {
    } else if |chunk| < bufferSize {
      AsWrittenAgrees(later, "", bufferSize);
    } else {
      if |read| >= bufferSize {
        FullReadHasSep(blocks, tail, bufferSize);
      }
      match LastSep(chunk)
      case Some(i) =>
        AsWrittenAgrees(later, chunk[i + 2..], bufferSize);
      case None =>
        AsWrittenAgrees(later, "", bufferSize);
    }
  }

  /** A separator starts within the `bufferSize` characters from `i`. */
  predicate SepWithin(text: string, i: int, bufferSize: nat) {
    exists j :: i <= j && j + 1 < i + bufferSize && SepAt(text, j)
  }

  /** Every stretch of `bufferSize` characters of the text holds a separator. */
  predicate SepInEveryWindow(text: string, bufferSize: nat) {
    forall i :: 0 <= i && i + bufferSize <= |text| ==> SepWithin(text, i, bufferSize)
  }

  /** The full reads of a file are windows of its text. */
  lemma {:induction false} WindowsCoverReads(text: string, bufferSize: nat)
    requires bufferSize > 0 && SepInEveryWindow(text, bufferSize)
    ensures FullReadsHaveSep(FileReads(text, bufferSize), bufferSize)
    decreases |text|
  {
    if |text| >= bufferSize {
      var rest := text[bufferSize..];
      assert SepInEveryWindow(rest, bufferSize) by {
        forall i | 0 <= i && i + bufferSize <= |rest| ensures SepWithin(rest, i, bufferSize) {
          assert SepWithin(text, bufferSize + i, bufferSize);
          var j :| bufferSize + i <= j && j + 1 < bufferSize + i + bufferSize && SepAt(text, j);
          assert SepAt(rest, j - bufferSize);
        }
      }
      WindowsCoverReads(rest, bufferSize);
      var first := text[..bufferSize];
      assert HasSep(first) by {
        assert SepWithin(text, 0, bufferSize);
        var j :| 0 <= j && j + 1 < bufferSize && SepAt(text, j);
        assert SepAt(first, j);
      }
      var blocks := FileReads(text, bufferSize);
      assert blocks == [first] + FileReads(rest, bufferSize);
      forall i | 0 <= i < |blocks| && |blocks[i]| >= bufferSize ensures HasSep(blocks[i]) {
        if i > 0 {
          assert blocks[i] == FileReads(rest, bufferSize)[i - 1];
        }
      }
    }
  }

  /** The chunker as written yields the integers of the whole file when
      every window of the buffer size holds a separator. */
  lemma ReadChunksAsWrittenMatchText(text: string, bufferSize: nat)
    requires bufferSize > 0 && text != "" && !EndsWithSep(text)
    requires SepInEveryWindow(text, bufferSize)
    ensures ReadChunksAsWritten(FileReads(text, bufferSize), bufferSize).failure.None? <==>
      ParseTokens(Split(text)).Some?
    ensures ReadChunksAsWritten(FileReads(text, bufferSize), bufferSize).failure.None? ==>
      Flatten(ReadChunksAsWritten(FileReads(text, bufferSize), bufferSize).chunks) == ParseTokens(Split(text)).value
  {
    WindowsCoverReads(text, bufferSize);
    AsWrittenAgrees(FileReads(text, bufferSize), "", bufferSize);
    ReadChunksMatchText(text, bufferSize);
  }

  // ---------------------------------------------------------------------
  // Token-level facts and the documented read sequences

  /** A token that parses holds no separator. */
  lemma NoSepInNumber(s: string)
    requires ParseInt(s).Some?
    ensures !HasSep(s)
  {
    forall i | 0 <= i < |s| ensures !SepAt(s, i) {
      assert s[i] in s;
    }
  }

  /** A head made of integer tokens parses into those tokens' values. */
  lemma ParseHeadOfJoin(tokens: seq<string>)
    requires |tokens| >= 1
    requires forall i :: 0 <= i < |tokens| ==> ParseInt(tokens[i]).Some?
    ensures ParseHead(Join(tokens)) == ParseTokens(tokens)
  {
    forall i | 0 <= i < |tokens| ensures !HasSep(tokens[i]) {
      NoSepInNumber(tokens[i]);
    }
    SplitJoin(tokens);
  }

  /** The chunker as written rejects a well-formed file: when a number fills
      the first read exactly, the buffer has no separator and is parsed whole,
      and the next read starts with the separator, whose empty first token is
      not an integer. The corrected chunker reads the file. */
  lemma AsWrittenRejectsLongNumber(d: string, bufferSize: nat)
    requires bufferSize > 3 && |d| == bufferSize && AllDigits(d)
    ensures ParseTokens(Split(d + ", 5")).Some?
    ensures ReadChunksAsWritten(FileReads(d + ", 5", bufferSize), bufferSize).failure == Some(Custom(IncorrectData))
    ensures ReadChunks(FileReads(d + ", 5", bufferSize), bufferSize).failure.None?
  {
    LongNumberText(d);
    ReadChunksMatchText(d + ", 5", bufferSize);
    LongNumberReads(d, bufferSize);
    LongNumberHeads(d, bufferSize);
    LongNumberParse(d);
  }

  /** The file of the long number is well formed. */
  lemma LongNumberText(d: string)
    requires |d| >= 1 && AllDigits(d)
    ensures ParseTokens(Split(d + ", 5")).Some?
    ensures !EndsWithSep(d + ", 5")
  {
    LongNumberJoin(d);
    LongNumberTokens(d);
    ParseHeadOfJoin([d, "5"]);
  }

  lemma LongNumberJoin(d: string)
    ensures d + ", 5" == Join([d, "5"])
  {
    JoinCons(d, ["5"]);
    assert [d] + ["5"] == [d, "5"];
    assert Join(["5"]) == "5";
  }

  lemma LongNumberTokens(d: string)
    requires |d| >= 1 && AllDigits(d)
    ensures ParseTokens([d, "5"]).Some?
  {
    assert ParseInt(d).Some? && ParseInt("5").Some?;
    ParseTokensPrepend("5", []);
    assert ["5"] + [] == ["5"];
    ParseTokensPrepend(d, ["5"]);
    assert [d] + ["5"] == [d, "5"];
  }

  /** Its reads: the number, then the separator and the last number. */
  lemma LongNumberReads(d: string, bufferSize: nat)
    requires bufferSize > 3 && |d| == bufferSize
    ensures FileReads(d + ", 5", bufferSize) == [d, ", 5"]
  {
    var text := d + ", 5";
    assert text[..bufferSize] == d && text[bufferSize..] == ", 5";
  }

  /** The chunker as written parses the number as one head and the second
      read as another. */
  lemma LongNumberHeads(d: string, bufferSize: nat)
    requires bufferSize > 3 && |d| == bufferSize && AllDigits(d)
    ensures ReadHeadsAsWritten([d, ", 5"], "", bufferSize) == [d, ", 5"]
  {
    assert ParseInt(d).Some?;
    NoSepInNumber(d);
    assert "" + d == d;
    assert "" + ", 5" == ", 5";
    assert ReadHeadsAsWritten([], "", bufferSize) == [];
    assert ReadHeadsAsWritten([", 5"], "", bufferSize) == [", 5"];
    assert NextRead([d, ", 5"]) == d && LaterReads([d, ", 5"]) == [", 5"];
  }

  /** The second head's first token is empty, so parsing stops there. */
  lemma LongNumberParse(d: string)
    requires |d| >= 1 && AllDigits(d)
    ensures ParseHeads([d, ", 5"]).failure == Some(Custom(IncorrectData))
  {
    assert ParseInt(d).Some?;
    ParseHeadSingle(d);
    assert Split(", 5") == [""] + Split("5");
    assert ParseInt("") == None;
    assert ParseHead(", 5") == None;
    ParseHeadsCons(d, [", 5"]);
    assert [d] + [", 5"] == [d, ", 5"];
  }

  /** The chunker as written also accepts a malformed file: when the first
      read is all digits and the token goes on past it, the buffer is parsed
      whole and the rest of the token is parsed as a number of its own. The
      corrected chunker rejects the file. */
  lemma AsWrittenAcceptsSplitToken(d: string, bufferSize: nat)
    requires bufferSize > 3 && |d| == bufferSize && AllDigits(d)
    ensures ParseTokens(Split(d + "-3")).None?
    ensures ReadChunksAsWritten(FileReads(d + "-3", bufferSize), bufferSize) ==
      Chunked([[DigitsValue(d) as int], [-3]], None)
    ensures ReadChunks(FileReads(d + "-3", bufferSize), bufferSize).failure.Some?
  {
    SplitTokenText(d);
    ReadChunksMatchText(d + "-3", bufferSize);
    SplitTokenReads(d, bufferSize);
    SplitTokenHeads(d, bufferSize);
    SplitTokenParse(d);
  }

  /** The file of the split token is malformed: its one token is not an
      integer. */
  lemma SplitTokenText(d: string)
    requires |d| >= 1 && AllDigits(d)
    ensures Split(d + "-3") == [d + "-3"]
    ensures ParseTokens(Split(d + "-3")).None?
    ensures !EndsWithSep(d + "-3")
  {
    var t := d + "-3";
    forall i | 0 <= i < |t| ensures !SepAt(t, i) {
      if i < |d| {
        assert t[i] == d[i];
      }
    }
    SplitNoSep(t);
    assert t[|d|] == '-';
    assert !AllDigits(t);
    assert t[0] == d[0];
    assert ParseInt(t).None?;
    ParseTokensPrepend(t, []);
    assert [t] + [] == [t];
  }

  /** Its reads: the digits, then the rest of the token. */
  lemma SplitTokenReads(d: string, bufferSize: nat)
    requires bufferSize > 3 && |d| == bufferSize
    ensures FileReads(d + "-3", bufferSize) == [d, "-3"]
  {
    var text := d + "-3";
    assert text[..bufferSize] == d && text[bufferSize..] == "-3";
  }

  /** The chunker as written parses the digits as one head and the second
      read as another. */
  lemma SplitTokenHeads(d: string, bufferSize: nat)
    requires bufferSize > 3 && |d| == bufferSize && AllDigits(d)
    ensures ReadHeadsAsWritten([d, "-3"], "", bufferSize) == [d, "-3"]
  {
    assert ParseInt(d).Some?;
    NoSepInNumber(d);
    assert "" + d == d;
    assert "" + "-3" == "-3";
    assert ReadHeadsAsWritten([], "", bufferSize) == [];
    assert ReadHeadsAsWritten(["-3"], "", bufferSize) == ["-3"];
    assert NextRead([d, "-3"]) == d && LaterReads([d, "-3"]) == ["-3"];
  }

  /** Both heads parse: the digits, and minus three. */
  lemma SplitTokenParse(d: string)
    requires |d| >= 1 && AllDigits(d)
    ensures ParseHeads([d, "-3"]) == Chunked([[DigitsValue(d) as int], [-3]], None)
  {
    assert ParseHead(d) == Some([DigitsValue(d) as int]) by {
      ParseHeadSingle(d);
    }
    assert ParseHead("-3") == Some([-3]) by {
      MinusThree();
      ParseHeadSingle("-3");
    }
    ParseHeadsTwo(d, "-3", [DigitsValue(d) as int], [-3]);
  }

  lemma MinusThree()
    ensures ParseInt("-3") == Some(-3)
  {
    assert "-3"[1..] == "3" && "3"[..0] == "";
    assert DigitsValue("3") == 3;
  }

  /** A head holding one integer parses into that integer alone. */
  lemma ParseHeadSingle(s: string)
    requires ParseInt(s).Some?
    ensures ParseHead(s) == Some([ParseInt(s).value])
  {
    NoSepInNumber(s);
    SplitNoSep(s);
    var r := ParseTokens([s]);
    assert [s][0] == s;
    assert r.Some?;
    assert ParseInt([s][0]) == Some(r.value[0]);
    assert r.value == [r.value[0]];
  }

  /** The digit `d` followed by four zeros reads as `d` ten-thousands. */
  lemma TenThousands(d: char, v: nat)
    requires IsDigit(d) && DigitValue(d) == v
    ensures ParseInt([d, '0', '0', '0', '0']) == Some(v * 10000)
  {
    var s := [d, '0', '0', '0', '0'];
    assert s[..4] == [d, '0', '0', '0'] && s[..4][..3] == [d, '0', '0'];
    assert s[..4][..3][..2] == [d, '0'] && s[..4][..3][..2][..1] == [d];
    assert AllDigits(s);
    assert DigitsValue([d]) == v;
    assert DigitsValue([d, '0']) == v * 10;
    assert DigitsValue([d, '0', '0']) == v * 100;
    assert DigitsValue([d, '0', '0', '0']) == v * 1000;
  }

  lemma FiveDigitTokens()
    ensures ParseInt("10000") == Some(10000)
    ensures ParseInt("20000") == Some(20000)
    ensures ParseInt("30000") == Some(30000)
  {
    TenThousands('1', 1);
    TenThousands('2', 2);
    TenThousands('3', 3);
  }

  /** A trailing separator that closes a full buffer is cut off as the
      carried (empty) tail and never parsed, so the chunker as written accepts
      a file whose last token is empty; the same text in a longer buffer is
      parsed whole and fails. */
  lemma AsWrittenAcceptsTrailingSep(h: string, x: seq<int>, bufferSize: nat)
    requires ParseHead(h) == Some(x)
    requires bufferSize >= |h| + 2
    ensures ParseTokens(Split(h + Sep)).None?
    ensures bufferSize == |h| + 2 ==>
      ReadChunksAsWritten(FileReads(h + Sep, bufferSize), bufferSize) == Chunked([x], None)
    ensures bufferSize > |h| + 2 ==>
      ReadChunksAsWritten(FileReads(h + Sep, bufferSize), bufferSize) == Chunked([], Some(Custom(IncorrectData)))
  {
    TrailingSepTokens(h);
    if bufferSize == |h| + 2 {
      TrailingSepFullHeads(h, bufferSize);
      ParseHeadsOne(h, x);
    } else {
      TrailingSepShortHeads(h, bufferSize);
      assert ParseHead(h + Sep).None?;
    }
  }

  /** The text ending in the separator has an empty last token. */
  lemma TrailingSepTokens(h: string)
    ensures ParseTokens(Split(h + Sep)).None?
  {
    assert h + Sep == h + Sep + "";
    SplitAppend(h, "");
    assert Split("") == [""];
    assert ParseTokens([""]).None?;
    ParseTokensAppendFails(Split(h), [""]);
  }

  lemma TrailingSepFullHeads(h: string, bufferSize: nat)
    requires bufferSize == |h| + 2
    ensures ReadHeadsAsWritten(FileReads(h + Sep, bufferSize), "", bufferSize) == [h]
  {
    var text := h + Sep;
    assert text[..bufferSize] == text && text[bufferSize..] == "";
    var b: seq<string> := [text, ""];
    assert FileReads(text, bufferSize) == b;
    assert NextRead(b) == text && LaterReads(b) == [""];
    assert "" + text == text;
    assert SepAt(text, |text| - 2);
    assert LastSep(text) == Some(|h|);
    assert text[..|h|] == h && text[|h| + 2..] == "";
    assert ReadHeadsAsWritten([""], "", bufferSize) == [];
  }

  lemma TrailingSepShortHeads(h: string, bufferSize: nat)
    requires bufferSize > |h| + 2
    ensures ReadHeadsAsWritten(FileReads(h + Sep, bufferSize), "", bufferSize) == [h + Sep]
  {
    var text := h + Sep;
    var b: seq<string> := [text];
    assert FileReads(text, bufferSize) == b;
    assert NextRead(b) == text && LaterReads(b) == [];
    assert "" + text == text;
    assert ReadHeadsAsWritten([], "", bufferSize) == [];
  }

  /** Words in place of numbers, read in one short buffer, fail at once
      with 'incorrect data' and yield no chunk. */
  lemma ExampleIncorrect()
    ensures ReadChunksAsWritten(FileReads("foo, bar", BufferSize), BufferSize) == Chunked([], Some(Custom(IncorrectData)))
  {
    var b: seq<string> := ["foo, bar"];
    assert FileReads("foo, bar", BufferSize) == b;
    assert NextRead(b) == "foo, bar" && LaterReads(b) == [];
    assert "" + "foo, bar" == "foo, bar";
    assert ReadHeadsAsWritten([], "", BufferSize) == [];
    assert ParseHead("foo, bar").None? by {
      assert !HasSep("foo") by {
        forall i | 0 <= i < 3 ensures !SepAt("foo", i) { }
      }
      assert "foo, bar" == "foo" + Sep + "bar";
      SplitAfterPiece("foo", "bar");
      assert ParseInt("foo").None?;
    }
  }

  // The three read sequences below are the ones of the unit tests
  // (test/unit.py), with a buffer of 10 characters. Each ends with the empty
  // read that marks the end of the file.

  /** Parsing a list of heads whose first head parses. */
  lemma ParseHeadsCons(h: string, rest: seq<string>)
    requires ParseHead(h).Some?
    ensures ParseHeads([h] + rest) == Chunked([ParseHead(h).value] + ParseHeads(rest).chunks, ParseHeads(rest).failure)
  {
    assert ([h] + rest)[0] == h && ([h] + rest)[1..] == rest;
  }

  /** `s[i]` is the last separator of `s`. */
  lemma LastSepIs(s: string, i: nat)
    requires SepAt(s, i)
    requires forall j :: i < j < |s| ==> !SepAt(s, j)
    ensures LastSep(s) == Some(i)
  {
  }

  lemma CarriedTailLast()
    ensures ReadHeadsAsWritten([""], "30000", 10) == ["30000"]
  {
    assert NextRead([""]) == "" && LaterReads([""]) == [];
    assert "30000" + "" == "30000";
    assert ReadHeadsAsWritten([], "", 10) == [];
  }

  lemma CarriedTailMiddle()
    ensures ReadHeadsAsWritten(["00, 30000", ""], "200", 10) == ["20000", "30000"]
  {
    var b: seq<string> := ["00, 30000", ""];
    assert NextRead(b) == "00, 30000" && LaterReads(b) == [""];
    assert "200" + "00, 30000" == "20000, 30000";
    LastSepIs("20000, 30000", 5);
    assert "20000, 30000"[..5] == "20000";
    assert "20000, 30000"[7..] == "30000";
    CarriedTailLast();
  }

  lemma ExampleCarriedTailHeads()
    ensures ReadHeadsAsWritten(["10000, 200", "00, 30000", ""], "", 10) == ["10000", "20000", "30000"]
  {
    var b: seq<string> := ["10000, 200", "00, 30000", ""];
    assert NextRead(b) == "10000, 200" && LaterReads(b) == ["00, 30000", ""];
    assert "" + "10000, 200" == "10000, 200";
    LastSepIs("10000, 200", 5);
    assert "10000, 200"[..5] == "10000";
    assert "10000, 200"[7..] == "200";
    CarriedTailMiddle();
  }

  /** A full buffer is cut at its last separator and the text after it is
      carried into the next read, where it completes a number. */
  lemma ExampleCarriedTail()
    ensures ReadChunksAsWritten(["10000, 200", "00, 30000", ""], 10) == Chunked([[10000], [20000], [30000]], None)
  {
    ExampleCarriedTailHeads();
    assert ParseHead("10000") == Some([10000]) by {
      FiveDigitTokens();
      ParseHeadSingle("10000");
    }
    assert ParseHead("20000") == Some([20000]) by {
      FiveDigitTokens();
      ParseHeadSingle("20000");
    }
    assert ParseHead("30000") == Some([30000]) by {
      FiveDigitTokens();
      ParseHeadSingle("30000");
    }
    ParseHeadsThree("10000", "20000", "30000", [10000], [20000], [30000]);
  }

  /** Two heads that parse. */
  lemma ParseHeadsTwo(a: string, b: string, x: seq<int>, y: seq<int>)
    requires ParseHead(a) == Some(x) && ParseHead(b) == Some(y)
    ensures ParseHeads([a, b]) == Chunked([x, y], None)
  {
    ParseHeadsCons(b, []);
    assert [b] + [] == [b];
    ParseHeadsCons(a, [b]);
    assert [a] + [b] == [a, b];
  }

  /** Three heads that parse. */
  lemma ParseHeadsThree(a: string, b: string, c: string, x: seq<int>, y: seq<int>, z: seq<int>)
    requires ParseHead(a) == Some(x) && ParseHead(b) == Some(y) && ParseHead(c) == Some(z)
    ensures ParseHeads([a, b, c]) == Chunked([x, y, z], None)
  {
    ParseHeadsTwo(b, c, y, z);
    ParseHeadsCons(a, [b, c]);
    assert [a] + [b, c] == [a, b, c];
  }

  /** The digit `d` followed by a zero reads as `d` tens. */
  lemma Tens(d: char, v: nat)
    requires IsDigit(d) && DigitValue(d) == v
    ensures ParseInt([d, '0']) == Some(v * 10)
  {
    var s := [d, '0'];
    assert s[..1] == [d];
    assert AllDigits(s);
    assert DigitsValue([d]) == v;
    assert DigitsValue(s) == v * 10;
  }

  /** A head of two such tokens parses into both values. */
  lemma PairOfTens(a: char, b: char, u: nat, v: nat)
    requires IsDigit(a) && DigitValue(a) == u && IsDigit(b) && DigitValue(b) == v
    ensures ParseHead([a, '0'] + Sep + [b, '0']) == Some([u * 10, v * 10])
  {
    var ts: seq<string> := [[a, '0'], [b, '0']];
    Tens(a, u);
    Tens(b, v);
    JoinCons(ts[0], [ts[1]]);
    assert Join([ts[1]]) == ts[1];
    assert [ts[0]] + [ts[1]] == ts;
    ParseHeadOfJoin(ts);
    var r := ParseTokens(ts);
    assert ParseInt(ts[0]) == Some(r.value[0]) && ParseInt(ts[1]) == Some(r.value[1]);
    assert |r.value| == 2;
    assert r.value == [u * 10, v * 10];
  }

  /** A file shorter than the buffer is parsed whole in one chunk. */
  lemma ExampleOneRead()
    ensures ReadChunksAsWritten(["10, 20", ""], 10) == Chunked([[10, 20]], None)
  {
    OneReadHeads();
    HeadOfTens("10, 20", '1', '2', 1, 2);
    ParseHeadsOne("10, 20", [10, 20]);
  }

  lemma OneReadHeads()
    ensures ReadHeadsAsWritten(["10, 20", ""], "", 10) == ["10, 20"]
  {
    var b: seq<string> := ["10, 20", ""];
    assert NextRead(b) == "10, 20" && LaterReads(b) == [""];
    assert "" + "10, 20" == "10, 20";
    assert ReadHeadsAsWritten([""], "", 10) == [];
  }

  /** A head spelled as two such tokens around the separator. */
  lemma HeadOfTens(s: string, a: char, b: char, u: nat, v: nat)
    requires IsDigit(a) && DigitValue(a) == u && IsDigit(b) && DigitValue(b) == v
    requires s == [a, '0', ',', ' ', b, '0']
    ensures ParseHead(s) == Some([u * 10, v * 10])
  {
    assert s == [a, '0'] + Sep + [b, '0'];
    PairOfTens(a, b, u, v);
  }

  /** One head that parses. */
  lemma ParseHeadsOne(a: string, x: seq<int>)
    requires ParseHead(a) == Some(x)
    ensures ParseHeads([a]) == Chunked([x], None)
  {
    ParseHeadsCons(a, []);
    assert [a] + [] == [a];
  }

  lemma ExampleCutAtSepHeads()
    ensures ReadHeadsAsWritten(["10, 20, 30", ", 40", ""], "", 10) == ["10, 20", "30, 40"]
  {
    var b: seq<string> := ["10, 20, 30", ", 40", ""];
    assert LastSep("10, 20, 30") == Some(6) by {
      assert SepAt("10, 20, 30", 6);
      assert forall j :: 6 < j ==> !SepAt("10, 20, 30", j);
    }
    assert "10, 20, 30"[..6] == "10, 20";
    assert "10, 20, 30"[8..] == "30";
    assert "30" + ", 40" == "30, 40";
    assert "" + "" == "";
    assert ReadHeadsAsWritten([], "", 10) == [];
    assert ReadHeadsAsWritten([""], "", 10) == [];
    assert ReadHeadsAsWritten([", 40", ""], "30", 10) == ["30, 40"];
    assert NextRead(b) == "10, 20, 30" && LaterReads(b) == [", 40", ""];
    assert "" + "10, 20, 30" == "10, 20, 30";
  }

  /** A full buffer ending in a number is cut before that number, which is
      then parsed together with the next, short read. */
  lemma ExampleCutAtSep()
    ensures ReadChunksAsWritten(["10, 20, 30", ", 40", ""], 10) == Chunked([[10, 20], [30, 40]], None)
  {
    ExampleCutAtSepHeads();
    ExampleCutAtSepParse();
  }

  lemma ExampleCutAtSepParse()
    ensures ParseHeads(["10, 20", "30, 40"]) == Chunked([[10, 20], [30, 40]], None)
  {
    HeadOfTens("10, 20", '1', '2', 1, 2);
    HeadOfTens("30, 40", '3', '4', 3, 4);
    ParseHeadsTwo("10, 20", "30, 40", [10, 20], [30, 40]);
  }
}
