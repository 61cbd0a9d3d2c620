/**
  Content-Length frames over a byte stream (eap/environment/mcp_client.py). A read returns any
  non-empty part of what has arrived, up to the requested size, and nothing at end of stream.
  The deadline is a number of polls; a poll may find nothing to read.
 */
module Framing {
  import opened Wrappers
  import opened Decimal

  type Byte = b: int | 0 <= b < 256
  type Bytes = seq<Byte>

  datatype Error = TimedOut | ClosedBeforeHeader | MissingLength | BadNumber | ClosedInBody | BadJson
    | ServerError(detail: string)

  // ----- Printing -----

  function Ascii(s: string): (bytes: Bytes)
    ensures |bytes| == |s|
  {
    seq(|s|, i requires 0 <= i < |s| => if s[i] < 128 as char then s[i] as Byte else 63)
  }

  const LengthLabel: string := "Content-Length: "

  function Header(n: nat): string { LengthLabel + (Show(n) + "\r\n\r\n") }

  /** What `_write_message` sends for one payload. */
  function Frame(payload: Bytes): Bytes { Ascii(Header(|payload|)) + payload }

  function Frames(payloads: seq<Bytes>): Bytes
  {
    if payloads == [] then [] else Frame(payloads[0]) + Frames(payloads[1..])
  }

  // ----- Finding the header -----

  const Delimiter: Bytes := [13, 10, 13, 10]

  predicate DelimiterAt(data: Bytes, i: int) { 0 <= i <= |data| - 4 && data[i..i + 4] == Delimiter }

  /** `delimiter in data` */
  predicate Contains(data: Bytes) { exists i :: 0 <= i <= |data| - 4 && DelimiterAt(data, i) }

  /** The shortest beginning that holds the delimiter, or everything when there is none. */
  ghost predicate IsHeader(s: Bytes, n: nat)
  {
    n <= |s| && (Contains(s[..n]) || n == |s|) && forall m :: 0 <= m < n ==> !Contains(s[..m])
  }

  function HeaderFrom(s: Bytes, n: nat): (h: nat)
    requires n <= |s|
    ensures n <= h <= |s|
    decreases |s| - n
  {
    if Contains(s[..n]) || n == |s| then n else HeaderFrom(s, n + 1)
  }

  function HeaderOf(s: Bytes): (h: nat)
    ensures h <= |s|
  {
    HeaderFrom(s, 0)
  }

  lemma {:induction false} HeaderFromIsHeader(s: Bytes, n: nat)
    requires n <= |s| && forall m :: 0 <= m < n ==> !Contains(s[..m])
    ensures IsHeader(s, HeaderFrom(s, n))
    decreases |s| - n
  {
    if !Contains(s[..n]) && n < |s| {
      HeaderFromIsHeader(s, n + 1);
    }
  }

  /** There is one header. */
  lemma HeaderUnique(s: Bytes, n: nat)
    ensures IsHeader(s, HeaderOf(s)) && (IsHeader(s, n) <==> n == HeaderOf(s))
  {
    HeaderFromIsHeader(s, 0);
  }

  // ----- Parsing the header -----

  /** Header text; a byte outside ASCII reads as the replacement character. */
  function Decoded(bytes: Bytes): string
  {
    seq(|bytes|, i requires 0 <= i < |bytes| => if bytes[i] < 128 then bytes[i] as char else '\U{FFFD}')
  }

  function FirstLine(s: string): (line: string)
    ensures |line| <= |s|
    ensures |line| < |s| ==> |line| + 2 <= |s|
  {
    if s == "" || "\r\n" <= s then "" else [s[0]] + FirstLine(s[1..])
  }

  function LowerChar(c: char): char { if 'A' <= c <= 'Z' then c - 'A' + 'a' else c }

  const LowerLabel: string := "content-length:"

  /** `line.lower().startswith("content-length:")` */
  predicate IsLengthLine(line: string)
  {
    |line| >= |LowerLabel| && forall i :: 0 <= i < |LowerLabel| ==> LowerChar(line[i]) == LowerLabel[i]
  }

  /** The ASCII characters `strip` removes; header text holds no other it would. */
  predicate IsSpace(c: char) { '\t' <= c <= '\r' || '\U{1C}' <= c <= ' ' }

  /** `int(value.strip())` */
  function Number(s: string): Option<int>
    decreases |s|
  {
    if s != "" && IsSpace(s[0]) then Number(s[1..])
    else if s != "" && IsSpace(s[|s| - 1]) then Number(s[..|s| - 1])
    else ReadInt(s)
  }

  /** The first Content-Length line, in any case, with spaces around its number. */
  function ParseContentLength(text: string): Result<int, Error>
    decreases |text|
  {
    var line := FirstLine(text);
    if IsLengthLine(line) then
      match Number(line[|LowerLabel|..])
      case None => Failure(BadNumber)
      case Some(n) => Success(n)
    else if |line| == |text| then Failure(MissingLength)
    else ParseContentLength(text[|line| + 2..])
  }

  // ----- Reading one frame -----

  /** What `_read_message` gets out of a stream: the payload and the bytes after it. */
  function ReadFrame(s: Bytes): Result<(Bytes, Bytes), Error>
  {
    var h := HeaderOf(s);
    if h == 0 then Failure(ClosedBeforeHeader)
    else
      var n := ParseContentLength(Decoded(s[..h]));
      if n.Failure? then Failure(n.error)
      else ReadBody(s[h..], n.value)
  }

  function ReadBody(s: Bytes, n: int): Result<(Bytes, Bytes), Error>
  {
    if n <= 0 then Success(([], s))
    else if |s| < n then Failure(ClosedInBody)
    else Success((s[..n], s[n..]))
  }

  // ----- Round trip -----

  lemma AsciiDecodes(s: string)
    requires forall i :: 0 <= i < |s| ==> s[i] < 128 as char
    ensures Decoded(Ascii(s)) == s
  {
  }

  lemma {:induction false} FirstLineStops(a: string, b: string)
    requires forall i :: 0 <= i < |a| ==> a[i] != '\r'
    ensures FirstLine(a + ("\r\n" + b)) == a
  {
    var s := a + ("\r\n" + b);
    if a == "" {
      assert s == "\r\n" + b;
    } else {
      FirstLineStops(a[1..], b);
      assert s[0] == a[0] && s[1..] == a[1..] + ("\r\n" + b);
      assert !("\r\n" <= s) by { assert s[0] != '\r'; }
      assert a == [a[0]] + a[1..];
    }
  }

  lemma NumberTrims(digits: string)
    requires digits != "" && AllDigits(digits)
    ensures Number(" " + digits) == Some(ValueOf(digits))
  {
    assert (" " + digits)[1..] == digits;
    assert IsDigit(digits[0]) && IsDigit(digits[|digits| - 1]);
    assert Number(digits) == ReadInt(digits);
  }

  lemma HeaderParses(n: nat)
    ensures ParseContentLength(Header(n)) == Success(n)
  {
    var line := LengthLabel + Show(n);
    assert Header(n) == line + ("\r\n" + "\r\n");
    forall i | 0 <= i < |line| ensures line[i] != '\r' {
      if i >= |LengthLabel| {
        assert IsDigit(Show(n)[i - |LengthLabel|]);
      }
    }
    FirstLineStops(line, "\r\n");
    LabelledLine(Show(n));
    NumberTrims(Show(n));
    ValueOfShow(n);
  }

  lemma HeaderText(n: nat)
    ensures forall i :: 0 <= i < |Header(n)| ==>
      Header(n)[i] < 128 as char && (i < |Header(n)| - 4 ==> Header(n)[i] != '\r')
  {
    forall i | |LengthLabel| <= i < |Header(n)| - 4 ensures IsDigit(Header(n)[i]) {
      assert Header(n)[i] == Show(n)[i - |LengthLabel|];
    }
  }

  /** Before its end a header holds no carriage return. */
  lemma HeaderBytes(n: nat)
    ensures var bytes := Ascii(Header(n));
      && |bytes| == |LengthLabel| + |Show(n)| + 4 && bytes[|bytes| - 4..] == Delimiter
      && (forall i :: 0 <= i < |bytes| - 4 ==> bytes[i] != 13)
      && Decoded(bytes) == Header(n)
  {
    HeaderText(n);
    AsciiDecodes(Header(n));
    assert Header(n) == LengthLabel + Show(n) + "\r\n\r\n";
    DelimiterBytes(LengthLabel + Show(n));
  }

  lemma DelimiterBytes(start: string)
    ensures Ascii(start + "\r\n\r\n")[|start|..] == Delimiter
  {
    var text := start + "\r\n\r\n";
    var i := |start|;
    assert text[i] == '\r' && text[i + 1] == '\n' && text[i + 2] == '\r' && text[i + 3] == '\n';
  }

  lemma HeaderFound(n: nat, rest: Bytes)
    ensures HeaderOf(Ascii(Header(n)) + rest) == |Header(n)|
  {
    HeaderBytes(n);
    var bytes := Ascii(Header(n));
    var s, h := bytes + rest, |bytes|;
    assert s[..h] == bytes && DelimiterAt(bytes, h - 4);
    forall m | 0 <= m < h ensures !Contains(s[..m]) {
      forall i | 0 <= i <= m - 4 ensures !DelimiterAt(s[..m], i) {
        assert s[..m][i..i + 4][0] == bytes[i];
      }
    }
    HeaderUnique(s, h);
  }

  /** A frame reads back as its payload, whatever the payload holds and whatever follows. */
  lemma FrameReadsBack(payload: Bytes, rest: Bytes)
    ensures ReadFrame(Frame(payload) + rest) == Success((payload, rest))
  {
    var n := |payload|;
    var bytes := Ascii(Header(n));
    var s := Frame(payload) + rest;
    assert s == bytes + (payload + rest);
    HeaderFound(n, payload + rest);
    HeaderBytes(n);
    HeaderParses(n);
    assert s[..|bytes|] == bytes && s[|bytes|..] == payload + rest;
    assert n > 0 ==> (payload + rest)[..n] == payload && (payload + rest)[n..] == rest;
    assert n == 0 ==> payload == [] && payload + rest == rest;
  }

  /** `ss[i]` is the stream from which payload `i` is read next. */
  ghost predicate Chain(ps: seq<Bytes>, ss: seq<Bytes>)
  {
    |ss| == |ps| + 1 && forall i :: 0 <= i < |ps| ==> NextAt(ps, ss, i)
  }

  ghost predicate NextAt(ps: seq<Bytes>, ss: seq<Bytes>, i: nat)
    requires |ss| == |ps| + 1 && i < |ps|
  {
    ReadFrame(ss[i]) == Success((ps[i], ss[i + 1]))
  }

  lemma ChainPrepend(p: Bytes, s: Bytes, ps: seq<Bytes>, ss: seq<Bytes>)
    requires Chain(ps, ss) && ReadFrame(s) == Success((p, ss[0]))
    ensures Chain([p] + ps, [s] + ss)
  {
    forall i | 0 <= i < |ps| + 1 ensures NextAt([p] + ps, [s] + ss, i) {
      assert i > 0 ==> NextAt(ps, ss, i - 1);
    }
  }

  lemma ChainAppend(ps: seq<Bytes>, ss: seq<Bytes>, p: Bytes, s: Bytes)
    requires Chain(ps, ss) && ReadFrame(ss[|ps|]) == Success((p, s))
    ensures Chain(ps + [p], ss + [s])
  {
    forall i | 0 <= i < |ps| + 1 ensures NextAt(ps + [p], ss + [s], i) {
      assert i < |ps| ==> NextAt(ps, ss, i);
    }
  }

  /** Any sequence of payloads written as frames is read back as that sequence. */
  lemma {:induction false} FramesReadBack(payloads: seq<Bytes>, rest: Bytes) returns (ss: seq<Bytes>)
    ensures Chain(payloads, ss) && ss[0] == Frames(payloads) + rest && ss[|payloads|] == rest
    decreases |payloads|
  {
    if payloads == [] {
      ss := [rest];
    } else {
      var more := FramesReadBack(payloads[1..], rest);
      FrameReadsBack(payloads[0], more[0]);
      assert Frames(payloads) + rest == Frame(payloads[0]) + more[0];
      ChainPrepend(payloads[0], Frames(payloads) + rest, payloads[1..], more);
      ss := [Frames(payloads) + rest] + more;
      assert payloads == [payloads[0]] + payloads[1..];
    }
  }

  /** And as nothing else: what is read, and where the stream then stands, is determined. */
  lemma {:induction false} ChainUnique(ps: seq<Bytes>, ss: seq<Bytes>, qs: seq<Bytes>, ts: seq<Bytes>, n: nat)
    requires Chain(ps, ss) && Chain(qs, ts) && ss[0] == ts[0] && n <= |ps| && n <= |qs|
    ensures ps[..n] == qs[..n] && ss[n] == ts[n]
  {
    if n > 0 {
      ChainUnique(ps, ss, qs, ts, n - 1);
      assert NextAt(ps, ss, n - 1) && NextAt(qs, ts, n - 1);
      assert ps[..n] == ps[..n - 1] + [ps[n - 1]] && qs[..n] == qs[..n - 1] + [qs[n - 1]];
    }
  }

  // ----- Streams that end early -----

  lemma {:induction false} FirstLineWhole(s: string)
    requires forall i :: 0 <= i < |s| - 1 ==> s[i] != '\r'
    ensures FirstLine(s) == s
  {
    if s != "" {
      FirstLineWhole(s[1..]);
      assert !("\r\n" <= s) by { assert |s| > 1 ==> s[0] != '\r'; }
    }
  }

  lemma {:induction false} LeadingDigit(n: nat)
    requires n > 0
    ensures Show(n)[0] != '0'
  {
    if n >= 10 {
      LeadingDigit(n / 10);
    }
  }

  lemma {:induction false} PositiveValue(s: string)
    requires s != "" && AllDigits(s) && s[0] != '0'
    ensures ValueOf(s) > 0
  {
    if |s| > 1 {
      PositiveValue(s[..|s| - 1]);
    }
  }

  /** Part of a number is a number, and is zero only if the whole is. */
  lemma DigitsPrefix(n: nat, j: nat)
    requires 1 <= j <= |Show(n)|
    ensures AllDigits(Show(n)[..j]) && (ValueOf(Show(n)[..j]) == 0 <==> n == 0)
  {
    if n > 0 {
      LeadingDigit(n);
      PositiveValue(Show(n)[..j]);
    } else {
      assert Show(0)[..1] == "0" && "0"[..0] == "";
    }
  }

  lemma ReturnTrims(digits: string)
    requires digits != "" && AllDigits(digits)
    ensures Number(" " + digits + "\r") == Some(ValueOf(digits))
  {
    assert (" " + digits + "\r")[1..] == digits + "\r" && (digits + "\r")[..|digits|] == digits;
    assert IsDigit(digits[0]) && IsDigit(digits[|digits| - 1]);
    assert Number(digits) == ReadInt(digits);
    assert Number(digits + "\r") == Number(digits);
  }

  /** The first line of a header cut inside or after its number. */
  lemma CutLine(n: nat, k: nat)
    requires |LengthLabel| < k < |Header(n)|
    ensures var j := if k - |LengthLabel| < |Show(n)| then k - |LengthLabel| else |Show(n)|;
      var line := LengthLabel + Show(n)[..j];
      FirstLine(Header(n)[..k]) == if k == |LengthLabel| + |Show(n)| + 1 then line + "\r" else line
  {
    var j := if k - |LengthLabel| < |Show(n)| then k - |LengthLabel| else |Show(n)|;
    var line, text := LengthLabel + Show(n)[..j], Header(n)[..k];
    HeaderText(n);
    forall i | 0 <= i < |line| ensures line[i] != '\r' {
      assert line[i] == Header(n)[i];
    }
    if k <= |LengthLabel| + |Show(n)| {
      assert text == line;
      FirstLineWhole(text);
    } else if k == |LengthLabel| + |Show(n)| + 1 {
      assert text == line + "\r";
      FirstLineWhole(text);
    } else {
      var rest := if k == |Header(n)| - 1 then "\r" else "";
      assert text == line + ("\r\n" + rest);
      FirstLineStops(line, rest);
    }
  }

  /** The label and what follows it make a length line whose value starts at the space. */
  lemma LabelledLine(rest: string)
    ensures IsLengthLine(LengthLabel + rest) && (LengthLabel + rest)[|LowerLabel|..] == " " + rest
  {
  }

  lemma CutHeaderParses(n: nat, k: nat)
    requires |LengthLabel| < k < |Header(n)|
    ensures ParseContentLength(Header(n)[..k]).Success? && ParseContentLength(Header(n)[..k]).value >= 0
    ensures ParseContentLength(Header(n)[..k]).value == 0 <==> n == 0
  {
    var j := if k - |LengthLabel| < |Show(n)| then k - |LengthLabel| else |Show(n)|;
    var digits := Show(n)[..j];
    var line := FirstLine(Header(n)[..k]);
    CutLine(n, k);
    DigitsPrefix(n, j);
    NumberTrims(digits);
    ReturnTrims(digits);
    if k == |LengthLabel| + |Show(n)| + 1 {
      LabelledLine(digits + "\r");
      assert LengthLabel + digits + "\r" == LengthLabel + (digits + "\r");
      assert " " + (digits + "\r") == " " + digits + "\r";
    } else {
      LabelledLine(digits);
    }
  }

  lemma CutLabelFails(n: nat, k: nat)
    requires k <= |LengthLabel|
    ensures ParseContentLength(Header(n)[..k]).Failure?
  {
    var text := Header(n)[..k];
    HeaderText(n);
    FirstLineWhole(text);
    if k >= |LowerLabel| {
      BlankNumber(text[|LowerLabel|..]);
    }
  }

  lemma BlankNumber(s: string)
    requires s == "" || s == " "
    ensures Number(s) == None
  {
    assert " "[1..] == "" && Number("") == None;
  }

  lemma CutHeader(n: nat, k: nat)
    requires k < |Header(n)|
    ensures var s := Ascii(Header(n))[..k]; HeaderOf(s) == k && Decoded(s) == Header(n)[..k]
  {
    HeaderBytes(n);
    var bytes := Ascii(Header(n));
    var s := bytes[..k];
    forall m | 0 <= m <= k ensures !Contains(s[..m]) {
      forall i | 0 <= i <= m - 4 ensures !DelimiterAt(s[..m], i) {
        assert s[..m][i..i + 4][0] == bytes[i];
      }
    }
    HeaderUnique(s, k);
    assert Decoded(s) == Decoded(bytes)[..k];
  }

  /**
    A stream that ends inside a frame is reported as an error, with one exception: an empty
    payload whose header was cut after its number is read as that empty payload.
   */
  lemma TruncatedFrame(payload: Bytes, k: nat)
    requires k < |Frame(payload)|
    ensures ReadFrame(Frame(payload)[..k]).Success? <==> payload == [] && k > |LengthLabel|
  {
    var n := |payload|;
    var bytes := Ascii(Header(n));
    var s := Frame(payload)[..k];
    if k < |bytes| {
      assert s == bytes[..k];
      CutHeader(n, k);
      assert s[..k] == s && s[k..] == [];
      if k > |LengthLabel| { CutHeaderParses(n, k); } else { CutLabelFails(n, k); }
    } else {
      var part := payload[..k - |bytes|];
      assert s == bytes + part;
      HeaderFound(n, part);
      HeaderBytes(n);
      HeaderParses(n);
      assert s[..|bytes|] == bytes && s[|bytes|..] == part;
    }
  }

  // ----- Streams that start inside a frame -----

  /** Bytes a successful read accounts for. */
  lemma ReadAddsUp(s: Bytes, payload: Bytes, rest: Bytes)
    requires ReadFrame(s) == Success((payload, rest))
    ensures HeaderOf(s) > 0 && |s| == HeaderOf(s) + |payload| + |rest|
  {
  }

  lemma {:induction false} ShortTextHasNoLength(text: string)
    requires |text| < |LowerLabel|
    ensures ParseContentLength(text) == Failure(MissingLength)
    decreases |text|
  {
    var line := FirstLine(text);
    if |line| < |text| {
      ShortTextHasNoLength(text[|line| + 2..]);
    }
  }

  /** Past its first character the label's line is no length line. */
  lemma NoLabelInside(n: nat, k: nat)
    requires 0 < k <= |LengthLabel| + |Show(n)|
    ensures !IsLengthLine((LengthLabel + Show(n))[k..])
  {
    var line := LengthLabel + Show(n);
    if k < |LengthLabel| {
      NoSecondC(k);
      assert line[k..][0] == LengthLabel[k];
    } else if k < |line| {
      assert line[k..][0] == Show(n)[k - |LengthLabel|] && IsDigit(line[k..][0]);
    }
    assert LowerLabel[0] == 'c';
  }

  lemma NoSecondC(k: nat)
    requires 0 < k < |LengthLabel|
    ensures LowerChar(LengthLabel[k]) != 'c'
  {
  }

  lemma TailText(n: nat, k: nat)
    requires 0 < k <= |LengthLabel| + |Show(n)|
    ensures ParseContentLength(Header(n)[k..]) == Failure(MissingLength)
  {
    var line := (LengthLabel + Show(n))[k..];
    HeaderText(n);
    assert Header(n)[k..] == line + ("\r\n" + "\r\n");
    forall i | 0 <= i < |line| ensures line[i] != '\r' {
      assert line[i] == Header(n)[k + i];
    }
    FirstLineStops(line, "\r\n");
    NoLabelInside(n, k);
    ShortTextHasNoLength("\r\n");
    assert Header(n)[k..][|line| + 2..] == "\r\n";
  }

  lemma TailHeader(n: nat, k: nat, rest: Bytes)
    requires 0 < k <= |LengthLabel| + |Show(n)|
    ensures var bytes := Ascii(Header(n))[k..];
      HeaderOf(bytes + rest) == |bytes| && Decoded(bytes) == Header(n)[k..]
  {
    HeaderBytes(n);
    var all := Ascii(Header(n));
    var bytes := all[k..];
    var s, h := bytes + rest, |bytes|;
    assert s[..h] == bytes;
    assert bytes[h - 4..h] == all[|all| - 4..];
    assert DelimiterAt(bytes, h - 4);
    forall m | 0 <= m < h ensures !Contains(s[..m]) {
      forall i | 0 <= i <= m - 4 ensures !DelimiterAt(s[..m], i) {
        assert s[..m][i..i + 4][0] == all[k + i];
      }
    }
    HeaderUnique(s, h);
    assert Decoded(bytes) == Decoded(all)[k..];
  }

  /** A read that starts inside the first line of a header finds no length. */
  lemma InsideFirstLine(payload: Bytes, rest: Bytes, k: nat)
    requires 0 < k <= |LengthLabel| + |Show(|payload|)|
    ensures k < |Frame(payload)| && ReadFrame(Frame(payload)[k..] + rest) == Failure(MissingLength)
  {
    var n := |payload|;
    HeaderBytes(n);
    var bytes := Ascii(Header(n))[k..];
    assert Frame(payload)[k..] + rest == bytes + (payload + rest);
    TailHeader(n, k, payload + rest);
    TailText(n, k);
    assert (bytes + (payload + rest))[..|bytes|] == bytes;
  }

  /** Nor does one that starts inside the blank line and meets the end of the stream there. */
  lemma ShortStreamFails(s: Bytes)
    requires |s| < |LowerLabel|
    ensures ReadFrame(s).Failure?
  {
    if HeaderOf(s) > 0 {
      ShortTextHasNoLength(Decoded(s[..HeaderOf(s)]));
    }
  }

  /**
    After a reader gave up, the next read gets the frame it should exactly when the reader had
    taken nothing of it.
   */
  lemma ReadsRightIffNothingTaken(payload: Bytes, rest: Bytes, k: nat)
    requires k < |Frame(payload)|
    ensures ReadFrame(Frame(payload)[k..] + rest) == Success((payload, rest)) <==> k == 0
  {
    var s := Frame(payload)[k..] + rest;
    HeaderBytes(|payload|);
    if k == 0 {
      assert s == Frame(payload) + rest;
      FrameReadsBack(payload, rest);
    } else if k <= |LengthLabel| + |Show(|payload|)| {
      InsideFirstLine(payload, rest, k);
    } else if ReadFrame(s) == Success((payload, rest)) {
      ReadAddsUp(s, payload, rest);
      assert HeaderOf(s) < 4;
      NoShortHeader(s);
      ShortStreamFails(s);
    }
  }

  /** A header shorter than the delimiter is all there is. */
  lemma NoShortHeader(s: Bytes)
    requires HeaderOf(s) < 4
    ensures |s| == HeaderOf(s)
  {
    var h := HeaderOf(s);
    HeaderUnique(s, h);
    assert !Contains(s[..h]);
  }

  /** After `k` bytes the header is not complete, or its body is not. */
  ghost predicate Unfinished(s: Bytes, k: nat)
  {
    && k <= |s|
    && (!Contains(s[..k]) || (HeaderOf(s) <= k && BodyMissing(s, k - HeaderOf(s))))
  }

  /** The header asks for more than `k` bytes of body. */
  ghost predicate BodyMissing(s: Bytes, k: int)
  {
    var n := ParseContentLength(Decoded(s[..HeaderOf(s)]));
    n.Success? && k < n.value
  }

  lemma ContainsLonger(s: Bytes, m: nat, n: nat)
    requires m <= n <= |s| && Contains(s[..m])
    ensures Contains(s[..n])
  {
    var i :| 0 <= i <= m - 4 && DelimiterAt(s[..m], i);
    assert s[..n][i..i + 4] == s[..m][i..i + 4];
    assert DelimiterAt(s[..n], i);
  }

  /** A reader that has not finished is inside the frame it was reading. */
  lemma UnfinishedIsInside(payload: Bytes, rest: Bytes, k: nat)
    requires Unfinished(Frame(payload) + rest, k)
    ensures k < |Frame(payload)|
  {
    var n := |payload|;
    var bytes := Ascii(Header(n));
    var s := Frame(payload) + rest;
    assert s == bytes + (payload + rest);
    HeaderFound(n, payload + rest);
    HeaderBytes(n);
    HeaderParses(n);
    assert s[..|bytes|] == bytes;
    if !Contains(s[..k]) && k >= |bytes| {
      assert DelimiterAt(s[..|bytes|], |bytes| - 4);
      ContainsLonger(s, |bytes|, k);
    }
  }

  /** A read that ran out of time does no harm exactly when it had taken nothing. */
  lemma TimeOutHarmlessIff(payload: Bytes, rest: Bytes, k: nat)
    requires Unfinished(Frame(payload) + rest, k)
    ensures ReadFrame((Frame(payload) + rest)[k..]) == Success((payload, rest)) <==> k == 0
  {
    UnfinishedIsInside(payload, rest, k);
    ReadsRightIffNothingTaken(payload, rest, k);
    assert (Frame(payload) + rest)[k..] == Frame(payload)[k..] + rest;
  }

  lemma HeaderThenBody(payload: Bytes, rest: Bytes)
    ensures Frame(payload) + rest == Ascii(Header(|payload|)) + (payload + rest)
  {
  }

  /** A reader that gave up between a header and its body would take the body's bytes for a frame. */
  lemma CutAfterHeaderMisreads(inner: Bytes, rest: Bytes)
    ensures var outer := Frame(inner); var header := Ascii(Header(|outer|));
      && Frame(outer) + rest == header + (outer + rest)
      && ReadFrame(Frame(outer) + rest) == Success((outer, rest))
      && ReadFrame(outer + rest) == Success((inner, rest)) && inner != outer
  {
    var outer := Frame(inner);
    assert |outer| > |inner|;
    FrameReadsBack(outer, rest);
    FrameReadsBack(inner, rest);
    HeaderThenBody(outer, rest);
  }
}
