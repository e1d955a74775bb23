/**
 * The status-line step of the HTTP client's response parser (_http_client_response_parse
 * in qcloud_httpc.c): find the end of the status line, terminate it, read the response
 * code with atoi at offset 9, and stop on 403 and 404. The header scanning that follows
 * is not modelled.
 */
module HttpcResponse {
  import opened Qcloud
  import opened CString

  const Crlf: seq<char> := "\r\n"

  /** The offset of the code in "HTTP/1.1 200 OK". */
  const CodeOffset: nat := 9

  /** A character of the receive buffer at index i; the buffer is zero-filled beyond its text. */
  function At(b: seq<char>, i: nat): char {
    if i < |b| then b[i] else NUL
  }

  /** The characters atoi skips in front of a number (isspace in the C locale). */
  predicate IsSpace(c: char) {
    c == ' ' || c == '\t' || c == '\n' || c == '\U{B}' || c == '\U{C}' || c == '\r'
  }

  predicate IsDigit(c: char) {
    '0' <= c <= '9'
  }

  /** The first index at or after i that is not a space. */
  function SkipSpaces(b: seq<char>, i: nat): (j: nat)
    ensures i <= j && !IsSpace(At(b, j))
    ensures forall k :: i <= k < j ==> IsSpace(At(b, k))
    decreases |b| - i
  {
    if IsSpace(At(b, i)) then SkipSpaces(b, i + 1) else i
  }

  /** The length of the run of digits starting at i. */
  function DigitRun(b: seq<char>, i: nat): (n: nat)
    ensures n > 0 ==> i + n <= |b|
    ensures !IsDigit(At(b, i + n))
    ensures forall k :: i <= k < i + n ==> IsDigit(b[k])
    decreases |b| - i
  {
    if IsDigit(At(b, i)) then 1 + DigitRun(b, i + 1) else 0
  }

  /** The value of a string of decimal digits. */
  function Value(s: seq<char>): nat
    requires forall k :: 0 <= k < |s| ==> IsDigit(s[k])
  {
    if s == [] then 0
    else
      var last := s[|s| - 1];
      assert IsDigit(last);
      Value(s[..|s| - 1]) * 10 + (last as int - '0' as int)
  }

  /** atoi(b + i): spaces, an optional sign, then as many digits as there are; 0 without digits. */
  function Atoi(b: seq<char>, i: nat): int {
    var j := SkipSpaces(b, i);
    var sign := At(b, j);
    var d := if sign == '+' || sign == '-' then j + 1 else j;
    var n := DigitRun(b, d);
    var v: int := if n == 0 then 0 else Value(b[d..d + n]);
    if sign == '-' then -v else v
  }

  /** The decimal digits of n, without leading zeros: the reference atoi inverts. */
  function Decimal(n: nat): (s: seq<char>)
    ensures |s| > 0 && forall k :: 0 <= k < |s| ==> IsDigit(s[k])
  {
    if n < 10 then [('0' as int + n) as char] else Decimal(n / 10) + [('0' as int + n % 10) as char]
  }

  /** Reading back the decimal digits of n gives n. */
  lemma {:induction false} ValueDecimal(n: nat)
    ensures Value(Decimal(n)) == n
  {
    if n >= 10 {
      var s := Decimal(n);
      assert s[..|s| - 1] == Decimal(n / 10);
      ValueDecimal(n / 10);
    }
  }

  /** The run of digits in front of a non-digit is exactly those digits. */
  lemma {:induction false} DigitRunOf(b: seq<char>, i: nat, s: seq<char>)
    requires i + |s| <= |b| && b[i..i + |s|] == s
    requires forall k :: 0 <= k < |s| ==> IsDigit(s[k])
    requires !IsDigit(At(b, i + |s|))
    ensures DigitRun(b, i) == |s|
    decreases |s|
  {
    if |s| > 0 {
      assert b[i] == s[0];
      assert b[i + 1..i + |s|] == s[1..];
      DigitRunOf(b, i + 1, s[1..]);
    }
  }

  /** atoi reads a non-negative number written in decimal at i and followed by a non-digit. */
  lemma AtoiDecimal(b: seq<char>, i: nat, n: nat)
    requires i + |Decimal(n)| <= |b| && b[i..i + |Decimal(n)|] == Decimal(n)
    requires !IsDigit(At(b, i + |Decimal(n)|))
    ensures Atoi(b, i) == n
  {
    var s := Decimal(n);
    assert At(b, i) == s[0];
    assert SkipSpaces(b, i) == i;
    DigitRunOf(b, i, s);
    ValueDecimal(n);
  }

  /** What the status step leaves behind: the early return code, if it returns (None: parsing
   *  carries on to the headers), the value stored in client->response_code (None: not
   *  written), and the value stored in response_content_len. */
  datatype StatusOutcome = StatusOutcome(rc: Option<Err>, responseCode: Option<int>, contentLen: int)

  /** The status step on the buffer b, whose text is the received data. */
  function Status(b: seq<char>): (o: StatusOutcome)
    requires NUL in b
    ensures o.contentLen == -1
    ensures o.rc == Some(HttpUnresolvedDns) <==> Find(CText(b), Crlf).None?
    ensures o.rc == Some(HttpUnresolvedDns) <==> o.responseCode.None?
    ensures o.rc == Some(HttpAuth) <==> o.responseCode == Some(403)
    ensures o.rc == Some(HttpNotFound) <==> o.responseCode == Some(404)
    ensures o.rc.None? <==> o.responseCode.Some? && o.responseCode.value != 403 && o.responseCode.value != 404
  {
    match Find(CText(b), Crlf)
    case None => StatusOutcome(Some(HttpUnresolvedDns), None, -1)
    case Some(pos) =>
      var code := Atoi(b[pos := NUL], CodeOffset);
      if code == 403 then StatusOutcome(Some(HttpAuth), Some(code), -1)
      else if code == 404 then StatusOutcome(Some(HttpNotFound), Some(code), -1)
      else StatusOutcome(None, Some(code), -1)
  }

  /** The status line "HTTP/" + version + decimal(code) + reason + CRLF, where version is
   *  four characters such as "1.1 ". */
  function StatusLine(version: seq<char>, code: nat, reason: seq<char>): seq<char> {
    "HTTP/" + version + Decimal(code) + reason + Crlf
  }

  /** A buffer starting with a line of text whose only carriage return is that of its
   *  final CRLF: strstr finds the end of that line. */
  lemma FirstCrlf(b: seq<char>, line: seq<char>)
    requires NUL in b && line <= b && NoNul(line)
    requires |line| >= 2 && line[|line| - 2..] == Crlf && '\r' !in line[..|line| - 2]
    ensures Find(CText(b), Crlf) == Some(|line| - 2)
  {
    var L := |line|;
    var n := CLen(b);
    assert forall k :: 0 <= k < L ==> b[k] == line[k];
    assert n >= L;
    var t := CText(b);
    assert t[..L] == line;
    assert OccursAt(t, Crlf, L - 2) by {
      assert t[L - 2..L] == line[L - 2..];
    }
    forall j | 0 <= j < L - 2 ensures !OccursAt(t, Crlf, j) {
      assert t[j..j + 2][0] == line[..L - 2][j];
    }
    FindIs(t, Crlf, L - 2);
  }

  /** Joining two pieces that hold no NUL and no carriage return gives such a piece. */
  lemma CleanJoin(a: seq<char>, c: seq<char>)
    requires NoNul(a) && NoNul(c) && '\r' !in a && '\r' !in c
    ensures NoNul(a + c) && '\r' !in a + c
  {
    forall k | 0 <= k < |a + c| ensures (a + c)[k] != NUL && (a + c)[k] != '\r' {
      if k < |a| { assert (a + c)[k] == a[k]; } else { assert (a + c)[k] == c[k - |a|]; }
    }
  }

  /** Digits are neither NUL nor a carriage return. */
  lemma DecimalClean(n: nat)
    ensures NoNul(Decimal(n)) && '\r' !in Decimal(n)
  {
    var d := Decimal(n);
    forall k | 0 <= k < |d| ensures d[k] != NUL && d[k] != '\r' {
      assert IsDigit(d[k]);
    }
  }

  /** The text of a status line in front of its CRLF holds no NUL and no carriage return. */
  lemma StatusLineClean(version: seq<char>, code: nat, reason: seq<char>)
    requires |version| == 4 && NoNul(version) && '\r' !in version
    requires NoNul(reason) && '\r' !in reason
    ensures var line := StatusLine(version, code, reason);
            |line| >= 2 && line[|line| - 2..] == Crlf && NoNul(line) && '\r' !in line[..|line| - 2]
  {
    var line := StatusLine(version, code, reason);
    var pre := "HTTP/" + version;
    var mid := Decimal(code) + reason;
    assert line == (pre + mid) + Crlf;
    assert NoNul("HTTP/") && '\r' !in "HTTP/";
    CleanJoin("HTTP/", version);
    DecimalClean(code);
    CleanJoin(Decimal(code), reason);
    CleanJoin(pre, mid);
    assert line[..|line| - 2] == pre + mid;
    assert line[|line| - 2..] == Crlf;
    forall k | 0 <= k < |line| ensures line[k] != NUL {
      if k < |line| - 2 { assert line[k] == (pre + mid)[k]; } else { assert line[k] == Crlf[k - |line| + 2]; }
    }
  }

  /** Where the parts of a status line stand: the code at offset 9, then the reason. */
  lemma StatusLineLayout(version: seq<char>, code: nat, reason: seq<char>)
    requires |version| == 4
    ensures var line := StatusLine(version, code, reason);
            var dec := Decimal(code);
            |line| == CodeOffset + |dec| + |reason| + 2 &&
            line[CodeOffset..CodeOffset + |dec|] == dec &&
            (reason != [] ==> line[CodeOffset + |dec|] == reason[0])
  {
    var line := StatusLine(version, code, reason);
    var dec := Decimal(code);
    assert line == ("HTTP/" + version) + dec + (reason + Crlf);
    assert |"HTTP/" + version| == CodeOffset;
    assert (reason + Crlf)[0] == line[CodeOffset + |dec|];
  }

  /** The code of a status line stands at offset 9 and is followed by a non-digit, once the
   *  end of the line is a NUL. */
  lemma StatusLineCode(b: seq<char>, version: seq<char>, code: nat, reason: seq<char>)
    requires |version| == 4 && (reason == [] || !IsDigit(reason[0]))
    requires StatusLine(version, code, reason) <= b
    ensures Atoi(b[|StatusLine(version, code, reason)| - 2 := NUL], CodeOffset) == code
  {
    var line := StatusLine(version, code, reason);
    var dec := Decimal(code);
    var b' := b[|line| - 2 := NUL];
    StatusLineLayout(version, code, reason);
    assert b'[CodeOffset..CodeOffset + |dec|] == dec by {
      forall k | 0 <= k < |dec| ensures b'[CodeOffset + k] == dec[k] {
        assert b[CodeOffset + k] == line[CodeOffset + k] == line[CodeOffset..CodeOffset + |dec|][k];
      }
    }
    assert !IsDigit(At(b', CodeOffset + |dec|)) by {
      if reason != [] { assert b'[CodeOffset + |dec|] == b[CodeOffset + |dec|] == line[CodeOffset + |dec|]; }
      else { assert b'[CodeOffset + |dec|] == NUL; }
    }
    AtoiDecimal(b', CodeOffset, code);
  }

  /** A buffer that starts with a status line, with no NUL and no carriage return in version
   *  and reason: end of line and code are found where they are written. */
  lemma StatusLineFound(b: seq<char>, version: seq<char>, code: nat, reason: seq<char>)
    requires |version| == 4 && NoNul(version) && '\r' !in version
    requires NoNul(reason) && '\r' !in reason && (reason == [] || !IsDigit(reason[0]))
    requires NUL in b && StatusLine(version, code, reason) <= b
    ensures var line := StatusLine(version, code, reason);
            Find(CText(b), Crlf) == Some(|line| - 2) &&
            Atoi(b[|line| - 2 := NUL], CodeOffset) == code
  {
    StatusLineClean(version, code, reason);
    FirstCrlf(b, StatusLine(version, code, reason));
    StatusLineCode(b, version, code, reason);
  }

  /** The code read from a status line decides the outcome: 403 stops with
   *  QCLOUD_ERR_HTTP_AUTH, 404 with QCLOUD_ERR_HTTP_NOT_FOUND, and every other code, inside
   *  200-399 or not, carries on to the headers. */
  lemma StatusOfLine(b: seq<char>, version: seq<char>, code: nat, reason: seq<char>)
    requires |version| == 4 && NoNul(version) && '\r' !in version
    requires NoNul(reason) && '\r' !in reason && (reason == [] || !IsDigit(reason[0]))
    requires NUL in b && StatusLine(version, code, reason) <= b
    ensures Status(b).responseCode == Some(code)
    ensures Status(b).rc == (if code == 403 then Some(HttpAuth) else if code == 404 then Some(HttpNotFound) else None)
  {
    StatusLineFound(b, version, code, reason);
  }

  /** A status line shorter than nine characters leaves atoi reading on past its end, into the
   *  next line: "HTTP/1\r\n  404" is taken for a 404. */
  lemma ShortStatusLine()
    ensures Status(ShortLine).rc == Some(HttpNotFound)
  {
    ShortLineEnd();
    ShortLineCode();
  }

  const ShortLine: seq<char> := "HTTP/1\r\n  404\r\n\0"

  lemma ShortLineEnd()
    ensures NUL in ShortLine && Find(CText(ShortLine), Crlf) == Some(6)
  {
    var line := "HTTP/1\r\n";
    assert ShortLine[15] == NUL;
    assert line <= ShortLine;
    assert line[6..] == Crlf && line[..6] == "HTTP/1";
    FirstCrlf(ShortLine, line);
  }

  lemma ShortLineCode()
    ensures Atoi(ShortLine[6 := NUL], CodeOffset) == 404
  {
    var b' := ShortLine[6 := NUL];
    assert b'[9] == ' ' && b'[10] == '4';
    assert SkipSpaces(b', 9) == 10;
    assert b'[10..13] == "404";
    DigitRunOf(b', 10, "404");
    assert Value("404") == 404 by {
      assert "404"[..2] == "40" && "40"[..1] == "4" && "4"[..0] == "";
    }
  }

  /** The status step: returns early with the code of the stop, or None when parsing carries on;
   *  the end of the status line is overwritten with a NUL. */
  method ResponseStatus(data: array<char>) returns (rc: Option<Err>, responseCode: Option<int>, contentLen: int)
    requires NUL in data[..]
    modifies data
    ensures old(Status(data[..])) == StatusOutcome(rc, responseCode, contentLen)
    ensures match old(Find(CText(data[..]), Crlf))
            case None => data[..] == old(data[..])
            case Some(pos) => data[..] == old(data[..][pos := NUL])
  {
    contentLen := -1;
    var n := StrLen(data);
    var text := data[..n];
    assert text == CText(data[..]);
    var crlf := Find(text, Crlf);
    if crlf.None? {
      return Some(HttpUnresolvedDns), None, contentLen;
    }
    var pos := crlf.value;
    data[pos] := NUL;
    var code := Atoi(data[..], CodeOffset);
    responseCode := Some(code);
    if code < 200 || code >= 400 {
      if code == 403 {
        return Some(HttpAuth), responseCode, contentLen;
      }
      if code == 404 {
        return Some(HttpNotFound), responseCode, contentLen;
      }
    }
    rc := None;
  }
}
