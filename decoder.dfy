/** The decoder, `read_file` (consolidate_translations.py:22-33): the codecs
    are tried in order and the first that decodes the whole file wins; when
    all of them fail, a lossy decode that cannot fail is used. */
module Decoder {
  import opened Basics

  type Byte = b: int | 0 <= b < 0x100
  type Bytes = seq<Byte>

  /** One `open(filepath, 'r', encoding=e).read()` attempt on the bytes of a
      file: the decoded text, or None where the codec raises a decoding error. */
  type Codec = Bytes -> Option<Text>

  /** The encodings of line 24 in the order they are tried, and the decode
      with `errors='ignore'` of lines 32-33. */
  datatype DecoderChain = DecoderChain(codecs: seq<Codec>, lossy: Bytes -> Text)

  /** Text-mode reading translates line endings: `"\r\n"` and a lone `"\r"`
      both read as `"\n"`. */
  function TranslateNewlines(s: Text): (r: Text)
    ensures |r| <= |s|
    ensures forall i :: 0 <= i < |r| ==> r[i] != CR
  {
    if s == [] then []
    else if s[0] == CR then [LF] + TranslateNewlines(if |s| > 1 && s[1] == LF then s[2..] else s[1..])
    else [s[0]] + TranslateNewlines(s[1..])
  }

  /** Text without carriage returns reads back unchanged. */
  lemma {:induction false} TranslateNewlinesIdentity(s: Text)
    requires forall i :: 0 <= i < |s| ==> s[i] != CR
    ensures TranslateNewlines(s) == s
  {
    if s != [] {
      TranslateNewlinesIdentity(s[1..]);
      assert s == [s[0]] + s[1..];
    }
  }

  /** First pass of an independent formulation: drop every CR that is
      immediately followed by an LF. */
  function DropCrBeforeLf(s: Text): Text
  {
    if s == [] then []
    else if s[0] == CR && |s| > 1 && s[1] == LF then DropCrBeforeLf(s[1..])
    else [s[0]] + DropCrBeforeLf(s[1..])
  }

  /** Second pass: every remaining CR becomes an LF. */
  function CrToLf(s: Text): (r: Text)
    ensures |r| == |s|
    ensures forall i :: 0 <= i < |s| ==> r[i] == if s[i] == CR then LF else s[i]
  {
    seq(|s|, i requires 0 <= i < |s| => if s[i] == CR then LF else s[i])
  }

  /** Newline translation is the two passes: `"\r\n"` becomes one `"\n"`,
      a lone `"\r"` becomes `"\n"`, and everything else is copied. */
  lemma {:induction false} TranslateNewlinesTwoPass(s: Text)
    ensures TranslateNewlines(s) == CrToLf(DropCrBeforeLf(s))
  {
    if s != [] {
      if s[0] == CR && |s| > 1 && s[1] == LF {
        TranslateNewlinesTwoPass(s[2..]);
        assert TranslateNewlines(s) == [LF] + TranslateNewlines(s[2..]);
        assert s[1..][1..] == s[2..];
        assert DropCrBeforeLf(s) == [LF] + DropCrBeforeLf(s[2..]);
        CrToLfConcat([LF], DropCrBeforeLf(s[2..]));
      } else {
        TranslateNewlinesTwoPass(s[1..]);
        assert TranslateNewlines(s) == CrToLf([s[0]]) + TranslateNewlines(s[1..]);
        assert DropCrBeforeLf(s) == [s[0]] + DropCrBeforeLf(s[1..]);
        CrToLfConcat([s[0]], DropCrBeforeLf(s[1..]));
      }
    }
  }

  lemma CrToLfConcat(a: Text, b: Text)
    ensures CrToLf(a + b) == CrToLf(a) + CrToLf(b)
  {
    assert forall i :: 0 <= i < |a + b| ==> CrToLf(a + b)[i] == (CrToLf(a) + CrToLf(b))[i];
  }

  /** The decoded text before newline translation: that of the first codec
      that succeeds, or else that of the lossy decode. */
  function FirstSuccess(data: Bytes, codecs: seq<Codec>, lossy: Bytes -> Text): (t: Text)
    ensures forall i :: 0 <= i < |codecs| && codecs[i](data).Some?
                        && (forall j :: 0 <= j < i ==> codecs[j](data).None?)
                        ==> t == codecs[i](data).value
    ensures (forall j :: 0 <= j < |codecs| ==> codecs[j](data).None?) ==> t == lossy(data)
  {
    if codecs == [] then lossy(data)
    else match codecs[0](data)
      case Some(text) => text
      case None =>
        var t := FirstSuccess(data, codecs[1..], lossy);
        assert forall j :: 1 <= j < |codecs| ==> codecs[j] == codecs[1..][j - 1];
        t
  }

  /** The text `read_file` returns for the bytes of a file. */
  function Decode(data: Bytes, chain: DecoderChain): Text
  {
    TranslateNewlines(FirstSuccess(data, chain.codecs, chain.lossy))
  }

  /** With a codec that decodes every byte sequence in the chain (latin-1),
      the lossy decode after the loop is never reached: the text comes from
      that codec or one before it. */
  lemma {:induction false} TotalCodecShadowsFallback(data: Bytes, codecs: seq<Codec>, lossy: Bytes -> Text, k: nat)
    requires k < |codecs| && codecs[k](data).Some?
    ensures exists i :: 0 <= i <= k && codecs[i](data).Some? && FirstSuccess(data, codecs, lossy) == codecs[i](data).value
  {
    if codecs[0](data).None? {
      TotalCodecShadowsFallback(data, codecs[1..], lossy, k - 1);
      var i :| 0 <= i <= k - 1 && codecs[1..][i](data).Some?
               && FirstSuccess(data, codecs[1..], lossy) == codecs[1..][i](data).value;
      assert codecs[i + 1] == codecs[1..][i];
    } else {
      assert codecs[0](data).Some?;
    }
  }

  /** `read_file`: the loop over the encodings with its early return, then
      the lossy decode. It never fails. */
  method ReadFile(data: Bytes, chain: DecoderChain) returns (content: Text)
    ensures content == Decode(data, chain)
  {
    var codecs := chain.codecs;
    var i := 0;
    while i < |codecs|
      invariant 0 <= i <= |codecs|
      invariant FirstSuccess(data, codecs[i..], chain.lossy) == FirstSuccess(data, codecs, chain.lossy)
    {
      var attempt := codecs[i](data);
      if attempt.Some? {
        return TranslateNewlines(attempt.value);
      }
      assert codecs[i..][1..] == codecs[i + 1..];
      i := i + 1;
    }
    content := TranslateNewlines(chain.lossy(data));
  }
}
