/** The C string functions the modelled code relies on (strlen, strstr, strchr), over `seq<char>`. */
module CString {
  import opened Qcloud

  const NUL: char := '\0'

  /** The characters of a C string: the text before its terminator, hence free of NUL. */
  predicate NoNul(s: seq<char>) {
    forall k :: 0 <= k < |s| ==> s[k] != NUL
  }

  /** strlen of a buffer: the index of its first NUL. */
  function CLen(b: seq<char>): (n: nat)
    requires NUL in b
    ensures n < |b| && b[n] == NUL && NoNul(b[..n])
  {
    if b[0] == NUL then 0 else 1 + CLen(b[1..])
  }

  /** The C string a buffer holds. */
  function CText(b: seq<char>): (t: seq<char>)
    requires NUL in b
    ensures |t| < |b| && NoNul(t) && b[|t|] == NUL
  {
    b[..CLen(b)]
  }

  /** The first NUL is the only one with no NUL before it. */
  lemma {:induction false} CLenAt(b: seq<char>, n: nat)
    requires n < |b| && b[n] == NUL && NoNul(b[..n])
    ensures NUL in b && CLen(b) == n
  {
    if n > 0 {
      assert b[0] == b[..n][0];
      assert b[1..][n - 1] == NUL;
      assert b[1..][..n - 1] == b[..n][1..];
      CLenAt(b[1..], n - 1);
    }
  }

  /** strlen, walking the buffer. */
  method StrLen(a: array<char>) returns (n: nat)
    requires NUL in a[..]
    ensures n < a.Length && a[n] == NUL && NoNul(a[..n])
    ensures n == CLen(a[..])
  {
    n := 0;
    while a[n] != NUL
      invariant n < a.Length
      invariant NUL in a[n..]
      invariant NoNul(a[..n])
      decreases a.Length - n
    {
      assert a[n..] == [a[n]] + a[n + 1..];
      n := n + 1;
    }
    CLenAt(a[..], n);
  }

  predicate OccursAt(s: seq<char>, p: seq<char>, k: nat) {
    k + |p| <= |s| && s[k..k + |p|] == p
  }

  /** The first NUL at or after the start ends the C string: a scan stopping at a NUL it reached
   *  from index 0 stops at strlen. */
  lemma FirstNul(b: seq<char>, k: nat)
    requires NUL in b && k <= CLen(b) && k < |b| && b[k] == NUL
    ensures k == CLen(b)
  {
    assert NoNul(b[..k]) by {
      forall j | 0 <= j < k ensures b[..k][j] != NUL {
        assert b[..CLen(b)][j] == b[j];
      }
    }
    CLenAt(b, k);
  }

  /** strstr from position i on: the first index at or after i where p occurs. */
  function FindFrom(s: seq<char>, p: seq<char>, i: nat): (r: Option<nat>)
    requires i <= |s|
    ensures r.Some? ==> i <= r.value && OccursAt(s, p, r.value)
    ensures r.Some? ==> forall k :: i <= k < r.value ==> !OccursAt(s, p, k)
    ensures r.None? ==> forall k :: i <= k <= |s| ==> !OccursAt(s, p, k)
    decreases |s| - i
  {
    if i + |p| > |s| then None
    else if s[i..i + |p|] == p then Some(i)
    else FindFrom(s, p, i + 1)
  }

  /** strstr: the first index at which p occurs in s. */
  function Find(s: seq<char>, p: seq<char>): (r: Option<nat>)
    ensures r.Some? ==> OccursAt(s, p, r.value)
    ensures r.Some? ==> forall k :: 0 <= k < r.value ==> !OccursAt(s, p, k)
    ensures r.None? ==> forall k :: 0 <= k <= |s| ==> !OccursAt(s, p, k)
  {
    FindFrom(s, p, 0)
  }

  /** strchr for a non-NUL character: the first index holding c. */
  function FindChar(s: seq<char>, c: char): (r: Option<nat>)
    ensures r.Some? ==> r.value < |s| && s[r.value] == c && c !in s[..r.value]
    ensures r.None? <==> c !in s
  {
    if s == [] then None
    else if s[0] == c then Some(0)
    else match FindChar(s[1..], c)
      case None => None
      case Some(k) =>
        assert s[..k + 1] == [s[0]] + s[1..][..k];
        Some(k + 1)
  }

  /** A search that finds the first occurrence: strstr returns it. */
  lemma FindIs(s: seq<char>, p: seq<char>, k: nat)
    requires OccursAt(s, p, k) && forall j :: 0 <= j < k ==> !OccursAt(s, p, j)
    ensures Find(s, p) == Some(k)
  {
  }

  /** strchr returns the first index holding c. */
  lemma FindCharIs(s: seq<char>, c: char, k: nat)
    requires k < |s| && s[k] == c && c !in s[..k]
    ensures FindChar(s, c) == Some(k)
  {
    assert c in s;
  }

  /** strchr from p on finds what strchr from the start finds, when c is not before p. */
  lemma FindCharAfter(s: seq<char>, c: char, p: nat)
    requires p <= |s| && c !in s[..p]
    ensures FindChar(s, c).None? ==> FindChar(s[p..], c).None?
    ensures FindChar(s, c).Some? ==> p <= FindChar(s, c).value && FindChar(s[p..], c) == Some(FindChar(s, c).value - p)
  {
    var tail := s[p..];
    assert s == s[..p] + tail;
    match FindChar(s, c)
    case None =>
    case Some(f) =>
      assert f >= p;
      assert tail[f - p] == c;
      assert c !in tail[..f - p] by {
        forall j | 0 <= j < f - p ensures tail[j] != c {
          assert s[..f][p + j] == tail[j];
        }
      }
      FindCharIs(tail, c, f - p);
  }

  /** A buffer after memcpy(dst, t, |t|) and dst[|t|] = '\0'. */
  function Stored(b: seq<char>, t: seq<char>): (r: seq<char>)
    requires |t| < |b|
    ensures |r| == |b| && r[..|t|] == t && r[|t|] == NUL && r[|t| + 1..] == b[|t| + 1..]
  {
    t + [NUL] + b[|t| + 1..]
  }

  /** A stored C string reads back as itself. */
  lemma StoredText(b: seq<char>, t: seq<char>)
    requires |t| < |b| && NoNul(t)
    ensures NUL in Stored(b, t) && CText(Stored(b, t)) == t
  {
    CLenAt(Stored(b, t), |t|);
  }

  /** memcpy of a string and its terminator into dst. */
  method CopyString(dst: array<char>, t: seq<char>)
    requires |t| < dst.Length
    modifies dst
    ensures dst[..] == Stored(old(dst[..]), t)
  {
    var k := 0;
    while k < |t|
      invariant k <= |t|
      invariant forall j :: 0 <= j < k ==> dst[j] == t[j]
      invariant forall j :: k <= j < dst.Length ==> dst[j] == old(dst[j])
    {
      dst[k] := t[k];
      k := k + 1;
    }
    dst[|t|] := NUL;
    assert dst[..] == Stored(old(dst[..]), t) by {
      forall j | 0 <= j < dst.Length ensures dst[j] == Stored(old(dst[..]), t)[j] {
        if j < |t| {
          assert Stored(old(dst[..]), t)[..|t|][j] == t[j];
        } else if j > |t| {
          assert Stored(old(dst[..]), t)[|t| + 1..][j - |t| - 1] == old(dst[..])[|t| + 1..][j - |t| - 1];
        }
      }
    }
  }
}
