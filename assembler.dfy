/** The assembler, `consolidate_translations` (consolidate_translations.py:46-102):
    locate the fragments, stop without writing when there are none, otherwise
    build header, one block per fragment with non-empty normalized text, and
    footer in one buffer, and write it. */
module Assembler {
  import opened Basics
  import opened Decimal
  import opened Locator
  import opened Decoder
  import opened Normalizer

  /** The bytes stored at each path. */
  type FileSystem = string -> Bytes

  /** The LaTeX preamble the buffer starts with (`latex_header`). */
  const Header: Text := Lit(@"\documentclass[12pt,a4paper]{article}
\usepackage{xepersian}
\usepackage{hyperref}
\usepackage{graphicx}
\usepackage{listings}
\usepackage{verbatim}

\settextfont{XB Niloofar}
\setdigitfont{XB Niloofar}

\title{مصاحبه طراحی سیستم: راهنمای جامع}
\author{الکس شو \\ ترجمه: احسان سمیعی}
\date{\today}

\begin{document}
\maketitle
\tableofcontents
\newpage

")

  /** The closing markup appended after the last block (`latex_footer`). */
  const Footer: Text := Lit(@"
\end{document}")

  /** The comment line `f"\n% --- فایل {num:03d}.txt ---\n"`. */
  function Separator(num: nat): Text
  {
    SeparatorStart + Lit(Pad3(num)) + SeparatorEnd
  }

  const SeparatorStart: Text := Lit("\n% --- فایل ")
  const SeparatorEnd: Text := Lit(".txt ---\n")

  /** What the loop appends for one fragment: nothing when its normalized
      text is empty, otherwise the separator, the text and a blank line. */
  function Block(num: nat, content: Text): Text
  {
    if content == [] then [] else Separator(num) + content + [LF, LF]
  }

  /** The normalized text of a fragment. */
  function FragmentText(f: Fragment, fs: FileSystem, chain: DecoderChain): Text
  {
    CleanContent(Decode(fs(f.path), chain))
  }

  /** A fragment's key with its normalized text. */
  datatype Loaded = Loaded(key: nat, text: Text)

  /** Reads and normalizes each fragment, in order. */
  function Load(files: seq<Fragment>, fs: FileSystem, chain: DecoderChain): (r: seq<Loaded>)
    ensures |r| == |files|
  {
    if files == [] then []
    else
      var f := files[|files| - 1];
      Load(files[..|files| - 1], fs, chain) + [Loaded(f.key, FragmentText(f, fs, chain))]
  }

  /** The blocks of the loaded fragments, in the order given. */
  function Blocks(entries: seq<Loaded>): Text
  {
    if entries == [] then []
    else
      var e := entries[|entries| - 1];
      Blocks(entries[..|entries| - 1]) + Block(e.key, e.text)
  }

  /** Lines 86-87 for one fragment: read the file, then normalize its text. */
  method LoadFragment(f: Fragment, fs: FileSystem, chain: DecoderChain) returns (content: Text)
    ensures content == FragmentText(f, fs, chain)
  {
    content := ReadFile(fs(f.path), chain);
    content := CleanContent(content);
  }

  /** One more fragment adds exactly its block after those of the fragments before it. */
  lemma LoadStep(files: seq<Fragment>, i: nat, fs: FileSystem, chain: DecoderChain)
    requires i < |files|
    ensures Blocks(Load(files[..i + 1], fs, chain))
            == Blocks(Load(files[..i], fs, chain)) + Block(files[i].key, FragmentText(files[i], fs, chain))
  {
    var done := Load(files[..i], fs, chain);
    var e := Loaded(files[i].key, FragmentText(files[i], fs, chain));
    assert files[..i + 1][..i] == files[..i];
    assert Load(files[..i + 1], fs, chain) == done + [e];
    assert (done + [e])[..|done|] == done;
  }

  /** Lines 89-93: the separator naming the fragment, its text and a blank
      line, appended only when the text is non-empty. */
  method AppendBlock(buffer: Text, num: nat, content: Text) returns (fullContent: Text)
    ensures fullContent == buffer + Block(num, content)
  {
    fullContent := buffer;
    if content != [] {
      var sep := Separator(num);
      ConcatAssoc(buffer, sep, content);
      ConcatAssoc(buffer, sep + content, [LF, LF]);
      fullContent := fullContent + sep;
      fullContent := fullContent + content;
      fullContent := fullContent + [LF, LF];
    }
  }

  /** Lines 84-93: for each fragment in order, its block is appended to the
      buffer; a fragment whose normalized text is empty adds nothing. */
  method AppendBlocks(buffer: Text, txtFiles: seq<Fragment>, fs: FileSystem, chain: DecoderChain)
    returns (fullContent: Text)
    ensures fullContent == buffer + Blocks(Load(txtFiles, fs, chain))
  {
    fullContent := buffer;
    var i := 0;
    while i < |txtFiles|
      invariant 0 <= i <= |txtFiles|
      invariant fullContent == buffer + Blocks(Load(txtFiles[..i], fs, chain))
    {
      var f := txtFiles[i];
      var content := LoadFragment(f, fs, chain);
      ghost var done := Blocks(Load(txtFiles[..i], fs, chain));
      LoadStep(txtFiles, i, fs, chain);
      ConcatAssoc(buffer, done, Block(f.key, content));
      fullContent := AppendBlock(fullContent, f.key, content);
      i := i + 1;
    }
    assert txtFiles[..i] == txtFiles;
  }

  /** `consolidate_translations`: None where it returns without writing
      (no fragment found); otherwise the text written to the output file. */
  method ConsolidateTranslations(d: Directory, fs: FileSystem, chain: DecoderChain) returns (written: Option<Text>)
    ensures written == None <==> Candidates(d) == []
    ensures written.Some? ==> written.value == Header + Blocks(Load(SortByKey(Candidates(d)), fs, chain)) + Footer
    ensures written.Some? ==> written.value == Header + Blocks(NonEmpty(Load(SortByKey(Candidates(d)), fs, chain))) + Footer
  {
    var txtFiles := GetTxtFiles(d);
    SortByKeySpec(Candidates(d));
    if txtFiles == [] {
      return None;
    }
    var fullContent := Header;
    fullContent := AppendBlocks(fullContent, txtFiles, fs, chain);
    BlocksSkipEmpty(Load(txtFiles, fs, chain));
    fullContent := fullContent + Footer;
    written := Some(fullContent);
  }

  /** Concatenation is associative; stated once so that the assembly loop
      does not have to rediscover it for every append. */
  lemma ConcatAssoc(a: Text, b: Text, c: Text)
    ensures (a + b) + c == a + (b + c)
  {
  }

  /** The blocks of a concatenation are the concatenated blocks. */
  lemma {:induction false} BlocksAppend(a: seq<Loaded>, b: seq<Loaded>)
    ensures Blocks(a + b) == Blocks(a) + Blocks(b)
  {
    if b == [] {
      assert a + b == a;
    } else {
      var init, e := b[..|b| - 1], b[|b| - 1];
      BlocksAppend(a, init);
      assert (a + b)[..|a + b| - 1] == a + init;
      assert (a + b)[|a + b| - 1] == e;
      ConcatAssoc(Blocks(a), Blocks(init), Block(e.key, e.text));
    }
  }

  /** The fragments whose normalized text is non-empty, in order. */
  function NonEmpty(entries: seq<Loaded>): (r: seq<Loaded>)
    ensures forall e :: e in r <==> e in entries && e.text != []
  {
    if entries == [] then []
    else
      var e := entries[|entries| - 1];
      NonEmpty(entries[..|entries| - 1]) + (if e.text == [] then [] else [e])
  }

  /** A fragment with empty normalized text contributes neither separator
      nor blank line: the blocks are those of the non-empty fragments alone. */
  lemma {:induction false} BlocksSkipEmpty(entries: seq<Loaded>)
    ensures Blocks(entries) == Blocks(NonEmpty(entries))
  {
    if entries != [] {
      var init := entries[..|entries| - 1];
      var e := entries[|entries| - 1];
      BlocksSkipEmpty(init);
      var tail := if e.text == [] then [] else [e];
      BlocksAppend(NonEmpty(init), tail);
      if e.text != [] {
        assert ([] + [e])[..0] == [];
        assert Blocks(tail) == Block(e.key, e.text);
      } else {
        assert NonEmpty(init) + tail == NonEmpty(init);
      }
    }
  }

  // ---------------------------------------------------------------------
  // Blank lines in the written document

  /** The separator line starts and ends with exactly one newline and holds
      no other. */
  lemma SeparatorRuns(num: nat)
    ensures |Separator(num)| >= 3
    ensures LeadRun(Separator(num), LF) == 1 && TrailRun(Separator(num), LF) == 1
    ensures NoRun(Separator(num), LF, 2)
  {
    var digits := Lit(Pad3(num));
    var sep := Separator(num);
    Pad3Spec(num);
    assert forall j :: 1 <= j < |SeparatorStart| ==> SeparatorStart[j] != LF;
    assert forall j :: 0 <= j < |digits| ==> digits[j] != LF by {
      forall j | 0 <= j < |digits| ensures digits[j] != LF {
        assert IsDigit(Pad3(num)[j]);
      }
    }
    assert forall j :: 0 <= j < |SeparatorEnd| - 1 ==> SeparatorEnd[j] != LF;
    assert sep[0] == LF && sep[1] != LF;
    assert sep[|sep| - 1] == LF && sep[|sep| - 2] != LF;
    forall j | 0 < j < |sep| - 1 ensures sep[j] != LF {
      if j < |SeparatorStart| {
        assert sep[j] == SeparatorStart[j];
      } else if j < |SeparatorStart| + |digits| {
        assert sep[j] == digits[j - |SeparatorStart|];
      } else {
        assert sep[j] == SeparatorEnd[j - |SeparatorStart| - |digits|];
      }
    }
    assert sep[..1] == Rep(LF, 1);
    LeadRunUnique(sep, LF, 1);
    assert sep[|sep| - 1..] == Rep(LF, 1);
    TrailRunUnique(sep, LF, 1);
    forall i: nat | i + 2 <= |sep| ensures !RunAt(sep, LF, i, 2) {
      var w := sep[i..i + 2];
      if i == 0 { assert w[1] == sep[1]; } else { assert w[0] == sep[i]; }
    }
  }

  /** A block starts with exactly the separator's one newline. */
  lemma BlockLead(num: nat, content: Text)
    requires content != []
    ensures |Block(num, content)| > 2 && LeadRun(Block(num, content), LF) == 1
  {
    var sep := Separator(num);
    SeparatorRuns(num);
    assert Block(num, content) == sep + (content + [LF, LF]);
    LeadRunConcat(sep, content + [LF, LF], LF);
  }

  /** A block of a trimmed text ends with exactly two newlines. */
  lemma BlockTrail(num: nat, content: Text)
    requires content != [] && Trimmed(content)
    ensures TrailRun(Block(num, content), LF) == 2
  {
    var b := Block(num, content);
    assert IsSpace(LF);
    assert b[|b| - 2..] == Rep(LF, 2);
    assert b[|b| - 3] == content[|content| - 1];
    TrailRunUnique(b, LF, 2);
  }

  /** A block of a normalized text holds no four newlines in a row. */
  lemma BlockNoRun(num: nat, content: Text)
    requires content != [] && Trimmed(content) && NoRun(content, LF, 3)
    ensures NoRun(Block(num, content), LF, 4)
  {
    var sep := Separator(num);
    var blank: Text := [LF, LF];
    SeparatorRuns(num);
    NoRunLonger(sep, LF, 2, 4);
    NoRunLonger(content, LF, 3, 4);
    assert LeadRun(content, LF) == 0 && TrailRun(content, LF) == 0 by { assert IsSpace(LF); }
    NoRunJoin(sep, content, LF, 4);
    TrailRunConcat(sep, content, LF);
    LeadRunUnique(blank, LF, 2);
    NoRunJoin(sep + content, blank, LF, 4);
  }

  lemma SeamNoRun(prev: Text, blk: Text)
    requires NoRun(prev, LF, 4) && TrailRun(prev, LF) <= 2
    requires LeadRun(blk, LF) == 1 && NoRun(blk, LF, 4)
    ensures NoRun(prev + blk, LF, 4)
  {
    NoRunJoin(prev, blk, LF, 4);
  }

  /** The blocks start with at most one newline, and are not newlines
      throughout. */
  lemma {:induction false} BlocksLead(entries: seq<Loaded>)
    ensures LeadRun(Blocks(entries), LF) <= 1
    ensures Blocks(entries) != [] ==> LeadRun(Blocks(entries), LF) < |Blocks(entries)|
  {
    if entries != [] {
      var init, e := entries[..|entries| - 1], entries[|entries| - 1];
      BlocksLead(init);
      var prev, blk := Blocks(init), Block(e.key, e.text);
      assert Blocks(entries) == prev + blk;
      if e.text == [] {
        assert prev + blk == prev;
      } else if prev == [] {
        BlockLead(e.key, e.text);
        assert prev + blk == blk;
      } else {
        LeadRunConcat(prev, blk, LF);
      }
    }
  }

  /** The blocks of trimmed texts end with at most two newlines. */
  lemma {:induction false} BlocksTrail(entries: seq<Loaded>)
    requires forall i :: 0 <= i < |entries| ==> Trimmed(entries[i].text)
    ensures TrailRun(Blocks(entries), LF) <= 2
  {
    if entries != [] {
      var init, e := entries[..|entries| - 1], entries[|entries| - 1];
      assert forall i :: 0 <= i < |init| ==> init[i] == entries[i];
      BlocksTrail(init);
      var prev, blk := Blocks(init), Block(e.key, e.text);
      assert Blocks(entries) == prev + blk;
      if e.text == [] {
        assert prev + blk == prev;
      } else {
        BlockLead(e.key, e.text);
        BlockTrail(e.key, e.text);
        TrailRunConcat(prev, blk, LF);
      }
    }
  }

  /** The blocks of normalized texts hold no four newlines in a row. */
  lemma {:induction false} BlocksNoRun(entries: seq<Loaded>)
    requires forall i :: 0 <= i < |entries| ==> Trimmed(entries[i].text) && NoRun(entries[i].text, LF, 3)
    ensures NoRun(Blocks(entries), LF, 4)
  {
    if entries != [] {
      var init, e := entries[..|entries| - 1], entries[|entries| - 1];
      assert forall i :: 0 <= i < |init| ==> init[i] == entries[i];
      BlocksNoRun(init);
      BlocksTrail(init);
      var prev, blk := Blocks(init), Block(e.key, e.text);
      assert Blocks(entries) == prev + blk;
      if e.text == [] {
        assert prev + blk == prev;
      } else {
        BlockLead(e.key, e.text);
        BlockNoRun(e.key, e.text);
        SeamNoRun(prev, blk);
      }
    }
  }

  /** Each loaded entry is the fragment's key with its normalized text. */
  lemma {:induction false} LoadEntries(files: seq<Fragment>, fs: FileSystem, chain: DecoderChain)
    ensures forall i :: 0 <= i < |files| ==>
      Load(files, fs, chain)[i] == Loaded(files[i].key, FragmentText(files[i], fs, chain))
  {
    if files != [] {
      var init := files[..|files| - 1];
      LoadEntries(init, fs, chain);
      assert forall i :: 0 <= i < |init| ==> init[i] == files[i];
    }
  }

  /** A fragment's normalized text is trimmed and holds no three newlines in a row. */
  lemma FragmentNormalized(f: Fragment, fs: FileSystem, chain: DecoderChain)
    ensures Trimmed(FragmentText(f, fs, chain)) && NoRun(FragmentText(f, fs, chain), LF, 3)
  {
    CleanContentSpec(Decode(fs(f.path), chain));
  }

  /** Every loaded text is normalized. */
  lemma LoadNormalized(files: seq<Fragment>, fs: FileSystem, chain: DecoderChain)
    ensures forall i :: 0 <= i < |files| ==>
      Trimmed(Load(files, fs, chain)[i].text) && NoRun(Load(files, fs, chain)[i].text, LF, 3)
  {
    LoadEntries(files, fs, chain);
    forall i | 0 <= i < |files|
      ensures Trimmed(Load(files, fs, chain)[i].text) && NoRun(Load(files, fs, chain)[i].text, LF, 3)
    {
      FragmentNormalized(files[i], fs, chain);
    }
  }

  /** The footer starts with one newline and holds no other. */
  lemma FooterRuns()
    ensures LeadRun(Footer, LF) == 1 && LeadRun(Footer, LF) < |Footer|
    ensures NoRun(Footer, LF, 4)
  {
    assert Footer[0] == LF && Footer[1] != LF;
    assert forall j :: 1 <= j < |Footer| ==> Footer[j] != LF;
    assert Footer[..1] == Rep(LF, 1);
    LeadRunUnique(Footer, LF, 1);
    forall i: nat | i + 4 <= |Footer| ensures !RunAt(Footer, LF, i, 4) {
      var w := Footer[i..i + 4];
      assert w[1] == Footer[i + 1];
    }
  }

  /** The header ends with exactly one blank line. */
  lemma HeaderRuns()
    ensures TrailRun(Header, LF) == 2
  {
    var n := |Header|;
    assert Header[n - 1] == LF && Header[n - 2] == LF && Header[n - 3] != LF;
    assert Header[n - 2..] == Rep(LF, 2);
    TrailRunUnique(Header, LF, 2);
  }

  /** The blocks of normalized texts start with at most one newline, end
      with at most two and hold no four in a row. */
  lemma BodyRuns(entries: seq<Loaded>)
    requires forall i :: 0 <= i < |entries| ==> Trimmed(entries[i].text) && NoRun(entries[i].text, LF, 3)
    ensures NoRun(Blocks(entries), LF, 4) && TrailRun(Blocks(entries), LF) <= 2
    ensures LeadRun(Blocks(entries), LF) <= 1
    ensures Blocks(entries) != [] ==> LeadRun(Blocks(entries), LF) < |Blocks(entries)|
  {
    BlocksNoRun(entries);
    BlocksTrail(entries);
    BlocksLead(entries);
  }

  /** A body with those runs, followed by a tail that starts with exactly one
      newline and holds no four, starts with at most one and holds no four. */
  lemma AppendTail(body: Text, tail: Text)
    requires NoRun(body, LF, 4) && TrailRun(body, LF) <= 2
    requires LeadRun(body, LF) <= 1 && (body != [] ==> LeadRun(body, LF) < |body|)
    requires LeadRun(tail, LF) == 1 && LeadRun(tail, LF) < |tail| && NoRun(tail, LF, 4)
    ensures LeadRun(body + tail, LF) <= 1 && NoRun(body + tail, LF, 4)
  {
    SeamNoRun(body, tail);
    SeamLead(body, tail);
  }

  /** The same for the footer as the tail. */
  lemma BodyFooterRuns(body: Text)
    requires NoRun(body, LF, 4) && TrailRun(body, LF) <= 2
    requires LeadRun(body, LF) <= 1 && (body != [] ==> LeadRun(body, LF) < |body|)
    ensures LeadRun(body + Footer, LF) <= 1 && NoRun(body + Footer, LF, 4)
  {
    FooterRuns();
    AppendTail(body, Footer);
  }

  /** After the header's closing blank line (see HeaderRuns) the document
      holds no four newlines in a row and starts with at most one: every
      fragment's text holds no three, and each seam (header to separator,
      blank line to the next separator, last blank line to the footer) joins
      at most two newlines with one. */
  lemma DocumentRuns(files: seq<Fragment>, fs: FileSystem, chain: DecoderChain)
    ensures LeadRun(Blocks(Load(files, fs, chain)) + Footer, LF) <= 1
    ensures NoRun(Blocks(Load(files, fs, chain)) + Footer, LF, 4)
  {
    var entries := Load(files, fs, chain);
    LoadNormalized(files, fs, chain);
    BodyRuns(entries);
    BodyFooterRuns(Blocks(entries));
  }

  /** Starting with at most one newline survives appending a text that
      itself starts with at most one and is not newlines throughout. */
  lemma SeamLead(prev: Text, next: Text)
    requires LeadRun(prev, LF) <= 1 && (prev != [] ==> LeadRun(prev, LF) < |prev|)
    requires LeadRun(next, LF) <= 1 && LeadRun(next, LF) < |next|
    ensures LeadRun(prev + next, LF) <= 1
  {
    if prev != [] {
      LeadRunConcat(prev, next, LF);
    } else {
      assert prev + next == next;
    }
  }
}
