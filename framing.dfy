/** The sentence envelope `$<body>*hh<CR><LF>`: checking it
    (`verifySentence`), taking the body out of it (`stripSentence`) and
    building it around a body (the framing in `writeSentence`). */
module Framing {
  import opened Checksum

  /** Which of the three checks of `verifySentence` a line fails, if any,
      in the order the checks are made. */
  datatype Verdict =
    | Valid
    | MissingStart                                   // no leading `$`
    | MissingEnd                                     // no `*hh\r\n` tail
    | Mismatch(expected: string, specified: string)  // wrong checksum

  /** The body between `$` and `*`, `buff[1:slen-5]`. */
  function Body(buff: string): string
    requires |buff| >= 6
  {
    buff[1..|buff| - 5]
  }

  /** The two checksum characters before the line end, `buff[slen-4:slen-2]`. */
  function Specified(buff: string): string
    requires |buff| >= 6
  {
    buff[|buff| - 4..|buff| - 2]
  }

  /** The first two checks pass: `$` at the start, `*` five characters
      from the end, CR LF at the end. */
  predicate Enveloped(buff: string) {
    |buff| >= 6 && buff[0] == '$' && buff[|buff| - 2..] == "\r\n" && buff[|buff| - 5] == '*'
  }

  /** The checks of `verifySentence`, first failure first. */
  function Check(buff: string): (v: Verdict)
    ensures v == MissingStart <==> |buff| < 1 || buff[0] != '$'
    ensures v == MissingEnd <==>
      |buff| >= 1 && buff[0] == '$' &&
      (|buff| < 6 || buff[|buff| - 2..] != "\r\n" || buff[|buff| - 5] != '*')
    ensures v.Mismatch? ==>
      v == Mismatch(CheckSum(Body(buff)), Specified(buff)) && v.expected != v.specified
    ensures Enveloped(buff) ==> (v == Valid <==> Specified(buff) == CheckSum(Body(buff)))
  {
    var slen := |buff|;
    if slen < 1 || buff[0] != '$' then MissingStart
    else if slen < 6 || buff[slen - 2..] != "\r\n" || buff[slen - 5] != '*' then MissingEnd
    else if CheckSum(Body(buff)) != Specified(buff) then Mismatch(CheckSum(Body(buff)), Specified(buff))
    else Valid
  }

  /** `verifySentence`: the line passes all three checks, so it is
      accepted exactly when its envelope is sound and the two digits before
      the line end are the checksum of the body. */
  predicate VerifySentence(buff: string)
    ensures VerifySentence(buff) <==>
      Enveloped(buff) && Specified(buff) == CheckSum(Body(buff))
  {
    Check(buff) == Valid
  }

  /** `stripSentence`: the body of a valid line, the empty string otherwise. */
  function StripSentence(buff: string): (r: string)
    ensures !VerifySentence(buff) ==> r == ""
    ensures VerifySentence(buff) ==> |r| == |buff| - 6
  {
    if !VerifySentence(buff) then "" else Body(buff)
  }

  /** The text `writeSentence` sends for an un-checksummed sentence. */
  function Frame(sentence: string): (r: string)
    ensures |r| == |sentence| + 4 + |CheckSum(sentence)|
    ensures r[0] == '$' && r[|r| - 2..] == "\r\n"
  {
    "$" + sentence + "*" + CheckSum(sentence) + "\r\n"
  }

  /** A sentence of ASCII text, once framed, passes `verifySentence`, and
      `stripSentence` gives the sentence back. */
  lemma FrameRoundTrip(sentence: string)
    requires IsAscii(sentence)
    ensures VerifySentence(Frame(sentence))
    ensures StripSentence(Frame(sentence)) == sentence
  {
    var f := Frame(sentence);
    var n := |sentence|;
    assert |f| == n + 6;
    assert f[|f| - 5] == '*';
    assert Body(f) == sentence;
    assert Specified(f) == CheckSum(sentence);
  }

  /** Conversely, every line `verifySentence` accepts is the frame of its
      own body, and that body's checksum prints in two digits. */
  lemma VerifiedIsFrame(buff: string)
    requires VerifySentence(buff)
    ensures |CheckSum(StripSentence(buff))| == 2
    ensures buff == Frame(StripSentence(buff))
  {
    var n := |buff|;
    assert buff == [buff[0]] + Body(buff) + [buff[n - 5]] + Specified(buff) + buff[n - 2..];
  }

  /** The checksum at the end of an accepted line is written in upper-case
      hexadecimal: `*6a` is refused where `*6A` is accepted. */
  lemma AcceptedChecksumIsUpperHex(buff: string)
    requires VerifySentence(buff)
    ensures IsHexDigit(buff[|buff| - 4]) && IsHexDigit(buff[|buff| - 3])
  {
    assert Specified(buff)[0] == buff[|buff| - 4];
    assert Specified(buff)[1] == buff[|buff| - 3];
  }

  /** Corrupting any one character of the body of a framed sentence,
      keeping the transmitted checksum, makes the line fail verification. */
  lemma CorruptionDetected(sentence: string, i: nat, c: char)
    requires IsAscii(sentence)
    requires i < |sentence| && c != sentence[i]
    ensures !VerifySentence(Frame(sentence)[i + 1 := c])
  {
    var f := Frame(sentence)[i + 1 := c];
    var n := |sentence|;
    assert |f| == n + 6;
    assert Body(f) == sentence[i := c];
    assert Specified(f) == CheckSum(sentence);
    if VerifySentence(f) {
      Hex02Injective(XorAll(sentence[i := c]), XorAll(sentence));
      XorAllDetectsChange(sentence, i, c);
      assert false;
    }
  }
}
