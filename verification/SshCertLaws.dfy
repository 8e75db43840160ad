/**
 What recognising a certificate promises: nothing before or after it is taken
 for one, and what is written back out reads as the same certificate.
 */
module SshCertLaws {
  import opened Prelude
  import opened Bytes
  import opened SshCert
  import opened Strings
  import Base64
  import Utf8

  // ----- More bytes after it change nothing

  lemma NumberStays(b: bytes, more: bytes, p: nat, width: nat)
    requires NumberAt(b, p, width).Some?
    ensures NumberAt(b + more, p, width) == NumberAt(b, p, width)
  {
    hide FromBE;
    assert (b + more)[p..p + width] == b[p..p + width];
  }

  lemma BytesStay(b: bytes, more: bytes, p: nat)
    requires BytesAt(b, p).Some?
    ensures BytesAt(b + more, p) == BytesAt(b, p)
  {
    hide NumberAt;
    NumberStays(b, more, p, 4);
    var (n, q) := NumberAt(b, p, 4).value;
    assert (b + more)[q..q + n] == b[q..q + n];
  }

  lemma TextStays(b: bytes, more: bytes, p: nat)
    requires TextAt(b, p).Some?
    ensures TextAt(b + more, p) == TextAt(b, p)
  {
    hide BytesAt;
    BytesStay(b, more, p);
  }

  lemma {:induction false} SkipStays(b: bytes, more: bytes, p: nat, n: nat)
    requires SkipFields(b, p, n).Some?
    ensures SkipFields(b + more, p, n) == SkipFields(b, p, n)
    ensures p <= SkipFields(b, p, n).value && (p <= |b| ==> SkipFields(b, p, n).value <= |b|)
    decreases n
  {
    hide BytesAt;
    if n > 0 {
      BytesStay(b, more, p);
      SkipStays(b, more, BytesAt(b, p).value.1, n - 1);
    }
  }

  lemma HeadStays(b: bytes, more: bytes)
    requires HeadAt(b).Some?
    ensures HeadAt(b + more) == HeadAt(b)
  {
    hide TextAt, BytesAt, SkipFields, PubkeyFields;
    TextStays(b, more, 0);
    var (keyType, p) := TextAt(b, 0).value;
    BytesStay(b, more, p);
    SkipStays(b, more, BytesAt(b, p).value.1, PubkeyFields(keyType).value);
  }

  lemma BodyStays(b: bytes, more: bytes, keyType: string, p0: nat)
    requires BodyAt(b, keyType, p0).Some?
    ensures BodyAt(b + more, keyType, p0) == BodyAt(b, keyType, p0)
  {
    hide TextAt, BytesAt, NumberAt, PackedStrings, PackedPairs, Names;
    NumberStays(b, more, p0, 8);
    var p1 := NumberAt(b, p0, 8).value.1;
    NumberStays(b, more, p1, 4);
    var p2 := NumberAt(b, p1, 4).value.1;
    TextStays(b, more, p2);
    var p3 := TextAt(b, p2).value.1;
    BytesStay(b, more, p3);
    var p4 := BytesAt(b, p3).value.1;
    NumberStays(b, more, p4, 8);
    var p5 := NumberAt(b, p4, 8).value.1;
    NumberStays(b, more, p5, 8);
    var p6 := NumberAt(b, p5, 8).value.1;
    BytesStay(b, more, p6);
    var p7 := BytesAt(b, p6).value.1;
    BytesStay(b, more, p7);
  }

  /** A certificate at the start of some bytes is there, the same, with any bytes after them. */
  lemma CertStays(b: bytes, more: bytes)
    requires CertAt(b).Some?
    ensures CertAt(b + more) == CertAt(b)
  {
    hide HeadAt, BodyAt, SkipFields;
    HeadStays(b, more);
    var (keyType, p) := HeadAt(b).value;
    BodyStays(b, more, keyType, p);
    SkipStays(b, more, BodyAt(b, keyType, p).value.1, 3);
  }

  /** Recognition is prefix-free: of two byte strings, one starting the other, at most one is a certificate. */
  lemma PrefixFree(b: bytes, more: bytes)
    requires more != []
    ensures !(ParseWire(b).Some? && ParseWire(b + more).Some?)
  {
    hide CertAt;
    if ParseWire(b).Some? {
      CertStays(b, more);
    }
  }

  // ----- Packed strings

  /** A wire string: its length in four bytes, then its bytes. */
  function WireString(s: string): bytes {
    BE(|Utf8.Encode(s)|, 4) + Utf8.Encode(s)
  }

  function PackStrings(ss: seq<string>): bytes {
    if ss == [] then [] else WireString(ss[0]) + PackStrings(ss[1..])
  }

  predicate Fits(s: string) {
    |Utf8.Encode(s)| < U32
  }

  /** What a wire string at a position says, and that nothing else says it. */
  lemma WireStringReads(before: bytes, s: string, after: bytes)
    requires Fits(s)
    ensures TextAt(before + WireString(s) + after, |before|) == Some((s, |before| + |WireString(s)|))
  {
    hide Utf8.Encode, Utf8.Decode, BE, FromBE;
    var raw := Utf8.Encode(s);
    var p, b := |before|, before + WireString(s) + after;
    Pow256Values();
    FromBEOfBE(|raw|, 4);
    assert b[p..p + 4] == BE(|raw|, 4);
    assert b[p + 4..p + 4 + |raw|] == raw;
    Utf8.DecodeOfEncode(s);
  }

  lemma ReadIsWireString(b: bytes, p: nat)
    requires TextAt(b, p).Some?
    ensures var (s, q) := TextAt(b, p).value; Fits(s) && b[p..q] == WireString(s)
  {
    hide Utf8.Encode, Utf8.Decode, BE, FromBE;
    var (s, q) := TextAt(b, p).value;
    var raw := b[p + 4..q];
    Utf8.EncodeOfDecode(raw);
    Pow256Values();
    FromBEBound(b[p..p + 4]);
    BEOfFromBE(b[p..p + 4]);
    assert b[p..q] == b[p..p + 4] + raw;
  }

  lemma {:induction false} BEOfFromBE(b: bytes)
    ensures BE(FromBE(b), |b|) == b
  {
    if b != [] {
      var head, last := b[..|b| - 1], b[|b| - 1];
      BEOfFromBE(head);
      assert FromBE(b) / 256 == FromBE(head) && FromBE(b) % 256 == last;
      assert b == head + [last];
    }
  }

  /** Principals: some strings are read exactly from the bytes that pack them. */
  lemma {:induction false} PackedStringsRead(before: bytes, ss: seq<string>)
    requires forall s :: s in ss ==> Fits(s)
    ensures PackedStrings(before + PackStrings(ss), |before|) == Some(ss)
    decreases |ss|
  {
    hide WireString, TextAt, Fits;
    var b := before + PackStrings(ss);
    if ss != [] {
      var first := WireString(ss[0]);
      WireStringReads(before, ss[0], PackStrings(ss[1..]));
      assert b == before + first + PackStrings(ss[1..]);
      PackedStringsRead(before + first, ss[1..]);
      assert TextAt(b, |before|).value.1 == |before + first|;
      assert [ss[0]] + ss[1..] == ss;
    }
  }

  lemma {:induction false} PackedStringsAreAll(b: bytes, p: nat)
    requires p <= |b| && PackedStrings(b, p).Some?
    ensures b[p..] == PackStrings(PackedStrings(b, p).value)
    decreases |b| - p
  {
    hide WireString, TextAt;
    if p < |b| {
      var (s, q) := TextAt(b, p).value;
      ReadIsWireString(b, p);
      PackedStringsAreAll(b, q);
      var ss := PackedStrings(b, p).value;
      assert ss[1..] == PackedStrings(b, q).value;
      assert b[p..] == b[p..q] + b[q..];
    }
  }

  /** Bytes are read as packed strings if and only if they are those strings packed. */
  lemma PackedStringsExactly(b: bytes, ss: seq<string>)
    requires forall s :: s in ss ==> Fits(s)
    ensures PackedStrings(b, 0) == Some(ss) <==> b == PackStrings(ss)
  {
    hide PackedStrings, PackStrings;
    if PackedStrings(b, 0) == Some(ss) {
      PackedStringsAreAll(b, 0);
      assert b[0..] == b;
    }
    PackedStringsRead([], ss);
    assert [] + PackStrings(ss) == PackStrings(ss);
  }

  // ----- Words

  lemma {:induction false} LeadingSpace(c: char, s: string)
    requires AsciiSpace(c)
    ensures Words([c] + s) == Words(s)
  {
    assert ([c] + s)[1..] == s;
  }

  lemma {:induction false} TrailingSpace(s: string, c: char, word: string)
    requires AsciiSpace(c)
    ensures WordsFrom(s + [c], word) == WordsFrom(s, word)
    decreases |s|
  {
    if s == [] {
      assert [c][1..] == [];
    } else {
      assert (s + [c])[1..] == s[1..] + [c];
      if AsciiSpace(s[0]) {
        TrailingSpace(s[1..], c, []);
      } else {
        TrailingSpace(s[1..], c, word + [s[0]]);
      }
    }
  }

  /** A word is read whole. */
  lemma {:induction false} WholeWord(w: string, rest: string, word: string)
    requires forall i :: 0 <= i < |w| ==> !AsciiSpace(w[i])
    ensures WordsFrom(w + rest, word) == WordsFrom(rest, word + w)
    decreases |w|
  {
    if w == [] {
      assert w + rest == rest && word + w == word;
    } else {
      assert (w + rest)[1..] == w[1..] + rest;
      WholeWord(w[1..], rest, word + [w[0]]);
      assert word + [w[0]] + w[1..] == word + w;
    }
  }

  /** Where all white space is ASCII space, trimming does not change the words. */
  lemma {:induction false} TrimStartKeepsWords(s: string)
    requires forall i :: 0 <= i < |s| && White(s[i]) ==> AsciiSpace(s[i])
    ensures Words(TrimStart(s)) == Words(s)
    ensures forall i :: 0 <= i < |TrimStart(s)| && White(TrimStart(s)[i]) ==> AsciiSpace(TrimStart(s)[i])
  {
    hide White, AsciiSpace, Words;
    if s != [] && White(s[0]) {
      assert [s[0]] + s[1..] == s;
      LeadingSpace(s[0], s[1..]);
      TrimStartKeepsWords(s[1..]);
    }
  }

  lemma {:induction false} TrimEndKeepsWords(s: string)
    requires forall i :: 0 <= i < |s| && White(s[i]) ==> AsciiSpace(s[i])
    ensures Words(TrimEnd(s)) == Words(s)
  {
    hide White, AsciiSpace, WordsFrom;
    if s != [] && White(s[|s| - 1]) {
      var head := s[..|s| - 1];
      assert head + [s[|s| - 1]] == s;
      TrailingSpace(head, s[|s| - 1], []);
      TrimEndKeepsWords(head);
    }
  }

  lemma {:induction false} TrimKeepsWords(s: string)
    requires forall i :: 0 <= i < |s| && White(s[i]) ==> AsciiSpace(s[i])
    ensures Words(Trim(s)) == Words(s)
  {
    hide White, AsciiSpace, Words, TrimStart, TrimEnd;
    TrimStartKeepsWords(s);
    TrimEndKeepsWords(TrimStart(s));
  }

  /** A plain line has the words of the text it came from, trimmed or not. */
  lemma PlainLineKeepsWords(text: string)
    requires PlainCertLine(text).Some?
    ensures Words(PlainCertLine(text).value + "\n") == Words(Trim(text))
  {
    hide Words, Trim;
    var line := WithoutLineEnd(text);
    assert text == line || text == line + "\n" || text == line + "\r" + "\n" by {
      if EndsWith(text, "\r\n") {
        assert text == text[..|text| - 2] + text[|text| - 2..];
        assert "\r\n" == "\r" + "\n";
        assert line + ("\r" + "\n") == line + "\r" + "\n";
      } else if EndsWith(text, "\n") {
        assert text == text[..|text| - 1] + text[|text| - 1..];
      }
    }
    TrimKeepsWords(text);
    EndsAddNothing(line);
  }

  lemma EndsAddNothing(line: string)
    ensures Words(line + "\n") == Words(line) && Words(line + "\r" + "\n") == Words(line)
  {
    hide WordsFrom;
    TrailingSpace(line, '\n', []);
    TrailingSpace(line, '\r', []);
    TrailingSpace(line + "\r", '\n', []);
  }

  // ----- What is written back out

  predicate OneWord(w: string) {
    forall i :: 0 <= i < |w| ==> '!' <= w[i] <= '~'
  }

  /** Certificate types are words that end in the certificate suffix. */
  lemma TypesAreWords(keyType: string)
    requires PubkeyFields(keyType).Some?
    ensures OneWord(keyType) && EndsWith(keyType, CERT_SUFFIX)
  {
    hide OneWord, EndsWith;
    AlgorithmsAreWords();
    Suffixed("ssh-ed25519");
    Suffixed("ssh-rsa");
    Suffixed("ecdsa-sha2-nistp256");
    Suffixed("ecdsa-sha2-nistp384");
    Suffixed("ecdsa-sha2-nistp521");
    Suffixed("sk-ssh-ed25519");
    Suffixed("sk-ecdsa-sha2-nistp256");
  }

  lemma AlgorithmsAreWords()
    ensures OneWord(CERT_SUFFIX) && OneWord("ssh-ed25519") && OneWord("ssh-rsa") && OneWord("sk-ssh-ed25519")
    ensures OneWord("ecdsa-sha2-nistp256") && OneWord("ecdsa-sha2-nistp384") && OneWord("ecdsa-sha2-nistp521")
    ensures OneWord("sk-ecdsa-sha2-nistp256")
  {
    hide OneWord;
    PlainAlgorithms();
    EcdsaAlgorithms();
  }

  lemma PlainAlgorithms()
    ensures OneWord(CERT_SUFFIX) && OneWord("ssh-ed25519") && OneWord("ssh-rsa") && OneWord("sk-ssh-ed25519")
  {
  }

  lemma EcdsaAlgorithms()
    ensures OneWord("ecdsa-sha2-nistp256") && OneWord("ecdsa-sha2-nistp384") && OneWord("ecdsa-sha2-nistp521")
    ensures OneWord("sk-ecdsa-sha2-nistp256")
  {
  }

  lemma Suffixed(name: string)
    requires OneWord(name) && OneWord(CERT_SUFFIX)
    ensures OneWord(name + CERT_SUFFIX) && EndsWith(name + CERT_SUFFIX, CERT_SUFFIX)
  {
  }

  lemma TypeOfCert(b: bytes)
    requires ParseWire(b).Some?
    ensures PubkeyFields(ParseWire(b).value.keyType).Some? && b != []
  {
    hide PubkeyFields, SkipFields, BytesAt, NumberAt, PackedStrings, PackedPairs, Names;
  }

  lemma TwoWords(a: string, c: string)
    requires OneWord(a) && OneWord(c) && a != [] && c != []
    ensures Words(a + " " + c + "\n") == [a, c]
  {
    hide WordsFrom;
    var rest := " " + (c + "\n");
    assert a + " " + c + "\n" == a + rest;
    WholeWord(a, rest, []);
    assert [] + a == a;
    SpaceEndsWord(c + "\n", a);
    assert rest == [' '] + (c + "\n");
    WholeWord(c, "\n", []);
    assert [] + c == c;
    LastWord(c);
    assert [a] + [c] == [a, c];
  }

  lemma SpaceEndsWord(s: string, word: string)
    requires word != []
    ensures WordsFrom([' '] + s, word) == [word] + WordsFrom(s, [])
  {
    assert ([' '] + s)[1..] == s;
  }

  lemma LastWord(word: string)
    requires word != []
    ensures WordsFrom("\n", word) == [word]
  {
    assert "\n"[1..] == [];
  }

  /** The certificate re-encoded is one line of printable ASCII that reads back to the same bytes. */
  lemma ToCertPubReadsBack(wire: bytes)
    requires ParseWire(wire).Some?
    ensures ToCertPub(wire).Some? && OneLine(ToCertPub(wire).value)
    ensures ParseText(ToCertPub(wire).value) == Some((ParseWire(wire).value, wire))
  {
    hide ParseWire, PubkeyFields, Base64.Encode, Base64.Decode, Words;
    var cert := ParseWire(wire).value;
    TypeOfCert(wire);
    TypesAreWords(cert.keyType);
    Base64.EncodedIsOneWord(wire);
    Base64.DecodeOfEncode(wire);
    TwoWords(cert.keyType, Base64.Encode(wire));
    var line := cert.keyType + " " + Base64.Encode(wire);
    assert Printable(line);
    assert (line + "\n")[..|line|] == line;
  }

  /** One line: printable ASCII and a final newline. */
  predicate OneLine(s: string) {
    s != [] && s[|s| - 1] == '\n' && Printable(s[..|s| - 1])
  }

  /**
   Whichever form a key stores a certificate in, what is written back out is
   one line of printable ASCII that reads back to the same certificate and the
   same wire bytes.
   */
  lemma StoredReadsBack(b: bytes)
    requires FromStored(b).Some?
    ensures var st := FromStored(b).value;
            && ParseWire(st.wire) == Some(st.info)
            && OneLine(st.certPub)
            && ParseText(st.certPub) == Some((st.info, st.wire))
            && (ParseWire(b).Some? ==> st.wire == b)
  {
    hide ParseWire, Utf8.Decode, Base64.Decode, Words, Trim, ToCertPub;
    if ParseWire(b).Some? {
      ToCertPubReadsBack(b);
    } else {
      var text := Utf8.Decode(b).value;
      var (info, wire) := ParseText(Trim(text)).value;
      if PlainCertLine(text).Some? {
        var line := PlainCertLine(text).value;
        PlainLineKeepsWords(text);
        assert (line + "\n")[..|line|] == line;
      } else {
        ToCertPubReadsBack(wire);
      }
    }
  }
}
