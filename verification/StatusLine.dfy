/** Reading the verdict out of a CONNECT response header. */
module StatusLine {
  import opened Seqs
  import opened ByteChunks
  import opened ConnectHeader

  const SPACE: byte := 32

  datatype Verdict = Accepted | Malformed | Rejected(code: int)

  /** ASCII whitespace, as `bytes.split()` sees it. */
  predicate IsSpace(b: byte) {
    b == SPACE || 9 <= b <= 13
  }

  predicate IsDigit(b: byte) {
    48 <= b <= 57
  }

  ghost predicate IsWord(w: Bytes) {
    w != [] && forall i :: 0 <= i < |w| ==> w[i] != 32 && !(9 <= w[i] <= 13)
  }

  /** `header.split(b"\r\n")[0]` */
  function FirstLine(header: Bytes): (line: Bytes)
    ensures |line| <= |header| && line == header[..|line|]
  {
    if |header| < 2 then header
    else if header[0] == CR && header[1] == LF then []
    else
      var rest := FirstLine(header[1..]);
      [header[0]] + rest
  }

  function SkipSpaces(s: Bytes): (r: Bytes)
    ensures |r| <= |s| && (r != [] ==> !IsSpace(r[0]))
  {
    if s == [] || !IsSpace(s[0]) then s else SkipSpaces(s[1..])
  }

  function WordLength(s: Bytes): (n: nat)
    ensures n <= |s| && (s != [] && !IsSpace(s[0]) ==> n > 0)
  {
    if s == [] || IsSpace(s[0]) then 0 else 1 + WordLength(s[1..])
  }

  /** `status.split()` */
  function Split(s: Bytes): seq<Bytes>
    decreases |s|
  {
    var t := SkipSpaces(s);
    if t == [] then [] else [t[..WordLength(t)]] + Split(t[WordLength(t)..])
  }

  /** Decimal digits with single underscores between them. */
  function ParseDigits(s: Bytes): Option<nat> {
    if s == [] || !IsDigit(s[|s| - 1]) then None
    else
      var d := s[|s| - 1] as nat - 48;
      if |s| == 1 then Some(d)
      else
        var front := ParseDigits(if s[|s| - 2] == 95 then s[..|s| - 2] else s[..|s| - 1]);
        if front.None? then None else Some(10 * front.value + d)
  }

  /** `int(token)` for a token without whitespace. */
  function ParseInt(s: Bytes): Option<int> {
    if s == [] then None
    else
      var signed := s[0] == 43 || s[0] == 45;
      var digits := ParseDigits(if signed then s[1..] else s);
      if digits.None? then None
      else
        var n: int := digits.value;
        Some(if s[0] == 45 then -n else n)
  }

  function Judge(header: Bytes): Verdict {
    var parts := Split(FirstLine(header));
    if |parts| < 2 then Malformed
    else
      var code := ParseInt(parts[1]);
      if code.None? then Malformed else if code.value == 200 then Accepted else Rejected(code.value)
  }

  // ---- Well-formed status lines ----

  function Digit(d: nat): byte
    requires d < 10
  {
    (48 + d) as byte
  }

  function CodeText(a: nat, b: nat, c: nat): Bytes
    requires a < 10 && b < 10 && c < 10
  {
    [Digit(a), Digit(b), Digit(c)]
  }

  lemma CodeParsed(a: nat, b: nat, c: nat)
    requires a < 10 && b < 10 && c < 10
    ensures ParseInt(CodeText(a, b, c)) == Some(100 * a + 10 * b + c)
  {
    var s := CodeText(a, b, c);
    assert s[..2] == [Digit(a), Digit(b)] && s[..2][..1] == [Digit(a)];
    assert ParseDigits([Digit(a)]) == Some(a);
    assert ParseDigits(s[..2]) == Some(10 * a + b);
  }

  lemma {:induction false} WordTaken(w: Bytes, rest: Bytes)
    requires forall i :: 0 <= i < |w| ==> !IsSpace(w[i])
    requires rest == [] || IsSpace(rest[0])
    ensures WordLength(w + rest) == |w|
  {
    if w == [] {
      assert w + rest == rest;
    } else {
      assert (w + rest)[1..] == w[1..] + rest;
      WordTaken(w[1..], rest);
    }
  }

  /** A word followed by a space, or by nothing, is split off whole. */
  lemma SplitWord(w: Bytes, rest: Bytes)
    requires IsWord(w) && (rest == [] || IsSpace(rest[0]))
    ensures Split(w + rest) == [w] + Split(rest)
  {
    WordTaken(w, rest);
    assert (w + rest)[..|w|] == w && (w + rest)[|w|..] == rest;
  }

  /** Whitespace before a word does not count: spaces, tabs, line ends, form feeds. */
  lemma SplitSpace(b: byte, rest: Bytes)
    requires b == 32 || 9 <= b <= 13
    ensures Split([b] + rest) == Split(rest)
  {
    assert ([b] + rest)[1..] == rest;
  }

  /** The first line ends at the first line break, or with the header if there is none. */
  lemma {:induction false} FirstLineMeans(header: Bytes)
    ensures var n := |FirstLine(header)|;
            && (n == |header| || (n + 2 <= |header| && header[n] == 13 && header[n + 1] == 10))
            && forall i :: 0 <= i < n && i + 1 < |header| ==> !(header[i] == 13 && header[i + 1] == 10)
  {
    if |header| >= 2 && !(header[0] == 13 && header[1] == 10) {
      FirstLineMeans(header[1..]);
      var n := |FirstLine(header)|;
      forall i | 0 <= i < n && i + 1 < |header| ensures !(header[i] == 13 && header[i + 1] == 10) {
        if i > 0 {
          assert header[i] == header[1..][i - 1] && header[i + 1] == header[1..][i];
        }
      }
    }
  }

  lemma {:induction false} LineTaken(line: Bytes, rest: Bytes)
    requires forall i :: 0 <= i < |line| ==> line[i] != CR
    requires rest == [] || (|rest| >= 2 && rest[0] == CR && rest[1] == LF)
    ensures FirstLine(line + rest) == line
  {
    if line == [] {
      assert line + rest == rest;
    } else {
      assert (line + rest)[1..] == line[1..] + rest;
      LineTaken(line[1..], rest);
      if |line + rest| < 2 {
        assert line + rest == line;
      }
    }
  }

  lemma NoReturn(version: Bytes, code: Bytes, tail: Bytes)
    requires forall i :: 0 <= i < |version + tail| ==> (version + tail)[i] != CR
    requires forall i :: 0 <= i < |code| ==> code[i] != CR
    ensures var line := version + [SPACE] + code + tail;
            forall i :: 0 <= i < |line| ==> line[i] != CR
  {
    assert forall i :: 0 <= i < |version| ==> version[i] == (version + tail)[i];
    assert forall i :: 0 <= i < |tail| ==> tail[i] == (version + tail)[|version| + i];
  }

  /** A status line of section 4 of RFC 9112, `version SP code [SP reason]`, with any header fields after
      it, is judged by its three-digit code alone: accepted iff the code is 200. */
  lemma StatusLineJudged(version: Bytes, a: nat, b: nat, c: nat, tail: Bytes, fields: Bytes)
    requires IsWord(version) && a < 10 && b < 10 && c < 10
    requires tail == [] || tail[0] == SPACE
    requires forall i :: 0 <= i < |version + tail| ==> (version + tail)[i] != CR
    requires fields == [] || (|fields| >= 2 && fields[0] == CR && fields[1] == LF)
    ensures var code := 100 * a + 10 * b + c;
            Judge(version + [SPACE] + CodeText(a, b, c) + tail + fields)
            == if code == 200 then Accepted else Rejected(code)
  {
    hide ParseInt, Split, FirstLine;
    var code := CodeText(a, b, c);
    var line := version + [SPACE] + code + tail;
    NoReturn(version, code, tail);
    LineTaken(line, fields);
    assert line == version + ([SPACE] + (code + tail));
    SplitWord(version, [SPACE] + (code + tail));
    SplitSpace(SPACE, code + tail);
    SplitWord(code, tail);
    CodeParsed(a, b, c);
    assert Split(line) == [version] + ([code] + Split(tail));
  }

  // ---- Which numbers are read ----

  /** Decimal digits, with single underscores between them. */
  ghost predicate WellSpelled(s: Bytes) {
    && s != []
    && forall i :: 0 <= i < |s| && !(48 <= s[i] <= 57) ==>
         && s[i] == 95 && 0 < i < |s| - 1
         && 48 <= s[i - 1] <= 57 && 48 <= s[i + 1] <= 57
  }

  /** The digits read from the left, whatever stands between them. */
  function Number(s: Bytes): int {
    if s == [] then 0
    else
      var front, last := Number(s[..|s| - 1]), s[|s| - 1];
      if last == 95 then front else 10 * front + (last as int - 48)
  }

  lemma SpelledBefore(s: Bytes, n: nat)
    requires 0 <= n < |s| && 48 <= s[|s| - 1] <= 57
    requires if n == |s| - 1 then n > 0 && s[n - 1] != 95 else n == |s| - 2 && s[n] == 95
    ensures WellSpelled(s) <==> WellSpelled(s[..n])
  {
  }

  lemma {:induction false} DigitsMean(s: Bytes)
    ensures ParseDigits(s).Some? <==> WellSpelled(s)
    ensures ParseDigits(s).Some? ==> ParseDigits(s).value == Number(s)
    decreases |s|
  {
    var n := |s|;
    if n >= 2 && IsDigit(s[n - 1]) {
      if s[n - 2] == 95 {
        DigitsMean(s[..n - 2]);
        SpelledBefore(s, n - 2);
        assert s[..n - 1][..n - 2] == s[..n - 2];
      } else {
        DigitsMean(s[..n - 1]);
        SpelledBefore(s, n - 1);
      }
    }
  }

  /** What stands behind an optional sign. */
  function Unsigned(token: Bytes): Bytes {
    if token != [] && (token[0] == 43 || token[0] == 45) then token[1..] else token
  }

  function SignedNumber(token: Bytes): int {
    if token != [] && token[0] == 45 then -Number(Unsigned(token)) else Number(Unsigned(token))
  }

  /** The verdict for every header: malformed iff the first line has no second word, or that is no number; 200
      is accepted, and any other number is the code reported. */
  lemma JudgeMeans(header: Bytes)
    ensures var words := Split(FirstLine(header));
            Judge(header)
            == if |words| < 2 || !WellSpelled(Unsigned(words[1])) then Malformed
               else if SignedNumber(words[1]) == 200 then Accepted
               else Rejected(SignedNumber(words[1]))
  {
    hide Split, FirstLine, ParseDigits, Number;
    var words := Split(FirstLine(header));
    if |words| >= 2 {
      DigitsMean(Unsigned(words[1]));
    }
  }

  // ---- Which headers are accepted ----

  const UNDERSCORE: byte := 95
  const PLUS: byte := 43

  /** Zeros, each with at most one underscore after it. */
  predicate Zeros(s: Bytes) {
    s == [] ||
    var t := if s[|s| - 1] == UNDERSCORE then s[..|s| - 1] else s;
    t != [] && t[|t| - 1] == Digit(0) && Zeros(t[..|t| - 1])
  }

  /** At most one underscore. */
  predicate Gap(s: Bytes) {
    s == [] || s == [UNDERSCORE]
  }

  /** The spellings of 200: leading zeros, then 2, 0, 0 with at most one underscore between two digits. */
  ghost predicate Spells200(s: Bytes) {
    exists zeros, g, h :: Zeros(zeros) && Gap(g) && Gap(h)
                          && s == zeros + [Digit(2)] + g + [Digit(0)] + h + [Digit(0)]
  }

  /** The same, perhaps after a plus sign. */
  ghost predicate Reads200(token: Bytes) {
    Spells200(token) || (token != [] && token[0] == PLUS && Spells200(token[1..]))
  }

  /** Another digit behind a number, with or without an underscore between them. */
  lemma DigitAppended(s: Bytes, g: Bytes, d: nat)
    requires ParseDigits(s).Some? && Gap(g) && d < 10
    ensures ParseDigits(s + g + [Digit(d)]) == Some(10 * ParseDigits(s).value + d)
  {
    var t := s + g + [Digit(d)];
    if g == [] {
      assert t[..|t| - 1] == s && t[|t| - 2] == s[|s| - 1];
    } else {
      assert t[..|t| - 2] == s && t[|t| - 2] == UNDERSCORE;
    }
  }

  /** A number of at least two digits is a shorter one with a digit behind it. */
  lemma LastDigit(s: Bytes) returns (front: Bytes, g: Bytes)
    requires |s| > 1 && ParseDigits(s).Some?
    ensures var n := ParseDigits(s).value;
            Gap(g) && s == front + g + [Digit(n % 10)] && ParseDigits(front) == Some(n / 10) && |front| < |s|
  {
    var n := |s|;
    if s[n - 2] == UNDERSCORE {
      front, g := s[..n - 2], [UNDERSCORE];
      assert s == front + g + [s[n - 1]];
    } else {
      front, g := s[..n - 1], [];
      assert s == front + g + [s[n - 1]];
    }
  }

  lemma ZeroLast(r: Bytes)
    requires r != []
    ensures ParseDigits(r) == Some(0) ==> r[|r| - 1] == Digit(0)
  {
  }

  /** Zeros are what may precede a number without changing it. */
  lemma {:induction false} ZerosThenDigit(s: Bytes, d: nat)
    requires d < 10
    ensures ParseDigits(s + [Digit(d)]) == Some(d) <==> Zeros(s)
  {
    var t := s + [Digit(d)];
    if s == [] {
      assert t == [Digit(d)];
    } else {
      var r := if s[|s| - 1] == UNDERSCORE then s[..|s| - 1] else s;
      assert t[..|t| - 1] == s && t[..|t| - 2] == s[..|s| - 1];
      assert ParseDigits(t) == Some(d) <==> ParseDigits(r) == Some(0);
      if r != [] {
        assert r == r[..|r| - 1] + [r[|r| - 1]];
        ZeroLast(r);
        ZerosThenDigit(r[..|r| - 1], 0);
      }
    }
  }

  lemma OneDigitSmall(s: Bytes)
    ensures ParseDigits(s).Some? && |s| <= 1 ==> ParseDigits(s).value < 10
  {
  }

  lemma EndsInDigit(s: Bytes)
    requires ParseDigits(s).Some?
    ensures s != [] && s[|s| - 1] == Digit(ParseDigits(s).value % 10)
  {
  }

  lemma Spelling(s: Bytes) returns (zeros: Bytes, g: Bytes, h: Bytes)
    requires ParseDigits(s) == Some(200)
    ensures Zeros(zeros) && Gap(g) && Gap(h) && s == zeros + [Digit(2)] + g + [Digit(0)] + h + [Digit(0)]
  {
    hide Zeros, Gap, ParseDigits;
    OneDigitSmall(s);
    var s20: Bytes, s2: Bytes;
    s20, h := LastDigit(s);
    OneDigitSmall(s20);
    s2, g := LastDigit(s20);
    EndsInDigit(s2);
    zeros := s2[..|s2| - 1];
    assert s2 == zeros + [Digit(2)];
    ZerosThenDigit(zeros, 2);
  }

  lemma SpellingParsed(zeros: Bytes, g: Bytes, h: Bytes)
    requires Zeros(zeros) && Gap(g) && Gap(h)
    ensures ParseDigits(zeros + [Digit(2)] + g + [Digit(0)] + h + [Digit(0)]) == Some(200)
  {
    hide ParseDigits, Zeros, Gap;
    ZerosThenDigit(zeros, 2);
    DigitAppended(zeros + [Digit(2)], g, 0);
    DigitAppended(zeros + [Digit(2)] + g + [Digit(0)], h, 0);
  }

  lemma ParsesAs200(s: Bytes)
    ensures ParseDigits(s) == Some(200) <==> Spells200(s)
  {
    if ParseDigits(s) == Some(200) {
      var zeros, g, h := Spelling(s);
    }
    if Spells200(s) {
      var zeros, g, h :| Zeros(zeros) && Gap(g) && Gap(h)
                         && s == zeros + [Digit(2)] + g + [Digit(0)] + h + [Digit(0)];
      SpellingParsed(zeros, g, h);
    }
  }

  /** What parses as digits begins with one, so a signed token is not one. */
  lemma {:induction false} DigitsBegin(s: Bytes)
    requires ParseDigits(s).Some?
    ensures IsDigit(s[0])
    decreases |s|
  {
    if |s| > 1 {
      var front, g := LastDigit(s);
      DigitsBegin(front);
    }
  }

  lemma NoDigits()
    ensures ParseDigits([]).None?
  {
  }

  lemma TokenReads200(token: Bytes)
    ensures ParseInt(token) == Some(200) <==> Reads200(token)
  {
    hide ParseDigits, Spells200;
    if token != [] {
      ParsesAs200(token);
      ParsesAs200(token[1..]);
      if ParseDigits(token).Some? {
        DigitsBegin(token);
      }
    } else {
      ParsesAs200(token);
      assert ParseDigits([]).None? by { NoDigits(); }
    }
  }

  /** The exact condition: a header is accepted iff its first line has a second word that spells 200. */
  lemma AcceptedIff(header: Bytes)
    ensures var words := Split(FirstLine(header));
            Judge(header).Accepted? <==> |words| >= 2 && Reads200(words[1])
  {
    hide ParseInt, Split, FirstLine, Reads200;
    var words := Split(FirstLine(header));
    if |words| >= 2 {
      TokenReads200(words[1]);
    }
  }

  /** So a header whose code has four digits, `0200`, is accepted ... */
  lemma PaddedCodeAccepted(version: Bytes)
    requires IsWord(version) && CR !in version
    ensures Judge(version + [SPACE] + ([Digit(0)] + CodeText(2, 0, 0))).Accepted?
  {
    hide Split, FirstLine, ParseInt;
    var token := [Digit(0)] + CodeText(2, 0, 0);
    var line := version + [SPACE] + token;
    assert line + [] == line && token + [] == token;
    LineTaken(line, []);
    assert line == version + ([SPACE] + token);
    SplitWord(version, [SPACE] + token);
    SplitSpace(SPACE, token);
    SplitWord(token, []);
    AcceptedIff(line);
    assert Zeros([Digit(0)]) && Gap([]);
    assert token == [Digit(0)] + [Digit(2)] + [] + [Digit(0)] + [] + [Digit(0)];
  }

  /** ... while of all three-byte codes exactly `200` is read as 200. */
  lemma ThreeByteCode(token: Bytes)
    requires |token| == 3
    ensures ParseInt(token) == Some(200) <==> token == CodeText(2, 0, 0)
  {
    CodeParsed(2, 0, 0);
    TokenReads200(token);
    if Spells200(token) {
      var zeros, g, h :| Zeros(zeros) && Gap(g) && Gap(h)
                         && token == zeros + [Digit(2)] + g + [Digit(0)] + h + [Digit(0)];
      assert zeros == [] && g == [] && h == [];
    }
  }
}
