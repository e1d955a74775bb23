/**
 * Appending request text to the HTTP client's send buffer (_http_client_get_info in
 * qcloud_httpc.c), on the path where the text fits: the bytes go at *send_idx and
 * *send_idx moves past them. The flush of a full buffer to the network is not modelled.
 */
module HttpcSend {
  import opened Qcloud
  import opened CString

  /** HTTP_CLIENT_SEND_BUF_SIZE. */
  const SendBufSize: nat := 1024

  /** The number of characters get_info takes from buf: len, or strlen(buf) when len is 0. */
  function TakeLen(buf: seq<char>, len: nat): (n: nat)
    requires len == 0 ==> NUL in buf
    ensures len > 0 ==> n == len
    ensures len == 0 ==> n < |buf| && buf[n] == NUL && NoNul(buf[..n])
  {
    if len == 0 then CLen(buf) else len
  }

  /** The send buffer b with data written at idx and all else kept. */
  function Appended(b: seq<char>, idx: nat, data: seq<char>): (r: seq<char>)
    requires idx + |data| <= |b|
    ensures |r| == |b|
    ensures r[..idx] == b[..idx] && r[idx..idx + |data|] == data && r[idx + |data|..] == b[idx + |data|..]
  {
    b[..idx] + data + b[idx + |data|..]
  }

  /** Two appends in a row put both pieces one after the other: the index each returns is
   *  where the next one writes. */
  lemma AppendTwice(b: seq<char>, idx: nat, d1: seq<char>, d2: seq<char>)
    requires idx + |d1| + |d2| <= |b|
    ensures Appended(Appended(b, idx, d1), idx + |d1|, d2) == Appended(b, idx, d1 + d2)
  {
    var r1 := Appended(b, idx, d1);
    var r2 := Appended(r1, idx + |d1|, d2);
    assert r2[..idx] == b[..idx] by { assert r2[..idx] == r1[..idx + |d1|][..idx]; }
    assert r2[idx..idx + |d1| + |d2|] == d1 + d2 by {
      assert r2[idx..idx + |d1|] == r1[..idx + |d1|][idx..];
      assert r2[idx..idx + |d1| + |d2|] == r2[idx..idx + |d1|] + r2[idx + |d1|..idx + |d1| + |d2|];
    }
    assert r2 == r2[..idx] + r2[idx..idx + |d1| + |d2|] + r2[idx + |d1| + |d2|..];
  }

  /** Appending nothing changes nothing. */
  lemma AppendNothing(b: seq<char>, idx: nat)
    requires idx <= |b|
    ensures Appended(b, idx, []) == b
  {
    assert b == b[..idx] + b[idx..];
  }

  /**
   * _http_client_get_info when the text fits: copies the text into sendBuf at sendIdx and
   * returns QCLOUD_ERR_SUCCESS and the new *send_idx.
   */
  method GetInfo(sendBuf: array<char>, sendIdx: nat, buf: array<char>, len: nat) returns (rc: Err, idx: nat)
    requires sendBuf.Length == SendBufSize && sendBuf != buf
    requires len == 0 ==> NUL in buf[..]
    requires len > 0 ==> len <= buf.Length
    requires sendIdx + TakeLen(buf[..], len) < SendBufSize
    modifies sendBuf
    ensures var data := buf[..TakeLen(buf[..], len)];
            rc == Success && idx == sendIdx + |data| && idx < SendBufSize &&
            sendBuf[..] == Appended(old(sendBuf[..]), sendIdx, data)
  {
    var n := len;
    if n == 0 {
      n := StrLen(buf);
    }
    ghost var data := buf[..n];
    rc := Success;
    idx := sendIdx;
    var rest := n;
    while rest > 0
      invariant rest == 0 || (rest == n && idx == sendIdx)
      invariant rest == n ==> sendBuf[..] == old(sendBuf[..])
      invariant rest == 0 ==> idx == sendIdx + n && sendBuf[..] == Appended(old(sendBuf[..]), sendIdx, data)
      decreases rest
    {
      var cp := if SendBufSize - idx >= rest then rest else SendBufSize - idx;
      CopyBytes(sendBuf, idx, buf, cp);
      idx := idx + cp;
      rest := rest - cp;
      if idx == SendBufSize {
        assert false;
      }
    }
    if n == 0 {
      AppendNothing(old(sendBuf[..]), sendIdx);
    }
  }

  /** memcpy(dst + at, src, count). */
  method CopyBytes(dst: array<char>, at: nat, src: array<char>, count: nat)
    requires at + count <= dst.Length && count <= src.Length && dst != src
    modifies dst
    ensures dst[..] == Appended(old(dst[..]), at, src[..count])
  {
    var k := 0;
    while k < count
      invariant k <= count
      invariant forall j :: 0 <= j < at ==> dst[j] == old(dst[j])
      invariant forall j :: 0 <= j < k ==> dst[at + j] == src[j]
      invariant forall j :: at + k <= j < dst.Length ==> dst[j] == old(dst[j])
    {
      dst[at + k] := src[k];
      k := k + 1;
    }
    assert dst[..] == Appended(old(dst[..]), at, src[..count]) by {
      var r := Appended(old(dst[..]), at, src[..count]);
      forall j | 0 <= j < dst.Length ensures dst[j] == r[j] {
        if j < at {
          assert r[..at][j] == old(dst[..])[..at][j];
        } else if j < at + count {
          assert r[at..at + count][j - at] == src[..count][j - at];
        } else {
          assert r[at + count..][j - at - count] == old(dst[..])[at + count..][j - at - count];
        }
      }
    }
  }
}
