/**
 * URL splitting of the HTTP client (_http_client_parse_url, _http_client_parse_host in
 * qcloud_httpc.c). A URL is the C string "scheme://host/path#fragment"; the parts are
 * copied, each with a terminator, into caller buffers whose capacities are passed in.
 *
 * ParseUrlOutcome describes the parse with two corrections (see README, Findings): the branch
 * without a '/' checks its copies against the capacities like the other branch does, and
 * the fragment is searched for from the start of the path. ParseUrlAsWritten describes
 * the code as it stands, by the number of characters each memcpy copies.
 */
module HttpcUrl {
  import opened Qcloud
  import opened CString

  const SchemeSep: seq<char> := "://"

  /** What one call leaves behind: its return code, the value stored in *port (None: not
   *  written), and the text stored, with a terminator, in each buffer (None: not written). */
  datatype UrlOutcome = UrlOutcome(
    rc: Err,
    port: Option<int>,
    scheme: Option<seq<char>>,
    host: Option<seq<char>>,
    path: Option<seq<char>>)

  /** The text after "://": the host, then the path. */
  function AfterSep(u: seq<char>, k: nat): seq<char>
    requires k + 3 <= |u|
  {
    u[k + 3..]
  }

  /** The length of the path starting at the beginning of tail: up to the first '#'. */
  function PathLen(tail: seq<char>): (n: nat)
    ensures n <= |tail| && '#' !in tail[..n]
    ensures n < |tail| ==> tail[n] == '#'
  {
    match FindChar(tail, '#')
    case None => |tail|
    case Some(f) => f
  }

  /** _http_client_parse_url on the URL text u, with the capacities of the three buffers. */
  function ParseUrlOutcome(u: seq<char>, maxScheme: nat, maxHost: nat, maxPath: nat): (o: UrlOutcome)
    ensures o.scheme.Some? ==> |o.scheme.value| < maxScheme
    ensures o.host.Some? ==> |o.host.value| < maxHost
    ensures o.path.Some? ==> |o.path.value| < maxPath
  {
    match Find(u, SchemeSep)
    case None => UrlOutcome(HttpParse, None, None, None, None)
    case Some(k) =>
      if maxScheme < k + 1 then UrlOutcome(HttpParse, None, None, None, None)
      else
        var scheme := u[..k];
        var rest := AfterSep(u, k);
        match FindChar(rest, '/')
        case None =>
          if maxHost < |rest| + 1 then UrlOutcome(HttpParse, Some(0), Some(scheme), None, None)
          else if maxPath < 2 then UrlOutcome(HttpParse, Some(0), Some(scheme), Some(rest), None)
          else UrlOutcome(Success, Some(0), Some(scheme), Some(rest), Some("/"))
        case Some(p) =>
          if maxHost < p + 1 then UrlOutcome(HttpParse, Some(0), Some(scheme), None, None)
          else
            var tail := rest[p..];
            var n := PathLen(tail);
            if maxPath < n + 1 then UrlOutcome(HttpParse, Some(0), Some(scheme), Some(rest[..p]), None)
            else UrlOutcome(Success, Some(0), Some(scheme), Some(rest[..p]), Some(tail[..n]))
  }

  /** The first "://" of u, when it has one. */
  predicate HasSep(u: seq<char>) {
    Find(u, SchemeSep).Some?
  }

  /** The scheme of u: the text before its first "://". */
  function Scheme(u: seq<char>): (sc: seq<char>)
    requires HasSep(u)
    ensures Find(u, SchemeSep) == Some(|sc|) && sc == u[..|sc|]
  {
    u[..Find(u, SchemeSep).value]
  }

  /** The text of u after its first "://". */
  function Rest(u: seq<char>): seq<char>
    requires HasSep(u)
  {
    AfterSep(u, Find(u, SchemeSep).value)
  }

  /** The host of u: the text after its first "://" up to the next '/', or to the end. */
  function Host(u: seq<char>): (h: seq<char>)
    requires HasSep(u)
    ensures '/' !in h && h <= Rest(u)
  {
    match FindChar(Rest(u), '/')
    case None => Rest(u)
    case Some(p) => Rest(u)[..p]
  }

  /** The path of u: from the '/' after the host up to the first '#' after it, or "/" when
   *  the host is not followed by a '/'. */
  function Path(u: seq<char>): (pa: seq<char>)
    requires HasSep(u)
    ensures |pa| > 0 && pa[0] == '/' && '#' !in pa
  {
    match FindChar(Rest(u), '/')
    case None => "/"
    case Some(p) => Rest(u)[p..][..PathLen(Rest(u)[p..])]
  }

  /** What parse_url leaves behind, stated part by part: *port and the scheme are written once
   *  "://" is found and the scheme fits, the host once it fits too, the path once it fits
   *  too; the call succeeds exactly when the path is written, and fails with
   *  QCLOUD_ERR_HTTP_PARSE otherwise. */
  lemma ParseUrlWrites(u: seq<char>, maxScheme: nat, maxHost: nat, maxPath: nat)
    ensures var o := ParseUrlOutcome(u, maxScheme, maxHost, maxPath);
            var schemeOk := HasSep(u) && |Scheme(u)| < maxScheme;
            var hostOk := schemeOk && |Host(u)| < maxHost;
            var pathOk := hostOk && |Path(u)| < maxPath;
            o.port == (if schemeOk then Some(0) else None) &&
            o.scheme == (if schemeOk then Some(Scheme(u)) else None) &&
            o.host == (if hostOk then Some(Host(u)) else None) &&
            o.path == (if pathOk then Some(Path(u)) else None) &&
            (o.rc == Success <==> pathOk) && (o.rc != Success ==> o.rc == HttpParse)
  {
    if HasSep(u) {
      var rest := Rest(u);
      match FindChar(rest, '/')
      case None =>
      case Some(p) =>
        assert Host(u) == rest[..p];
    }
  }

  /** The parts of a URL with a "://": scheme "://" host path is a prefix of u, followed by
   *  nothing or by a fragment starting with '#'. When the host is not followed by a '/',
   *  scheme "://" host is all of u and the path is "/". */
  lemma {:induction false} UrlSplits(u: seq<char>)
    requires HasSep(u)
    ensures var front := Scheme(u) + SchemeSep + Host(u);
            |front| <= |u| &&
            if '/' in Rest(u) then
              var rest := u[|front| + |Path(u)|..];
              u == front + Path(u) + rest && (rest == [] || rest[0] == '#')
            else
              u == front && Path(u) == "/"
  {
    var k := Find(u, SchemeSep).value;
    var rest := AfterSep(u, k);
    SepSplit(u, k);
    match FindChar(rest, '/')
    case None =>
    case Some(p) =>
      var n := PathLen(rest[p..]);
      SlashSplit(u, k, p, n);
  }

  /** u around its first "://" at k. */
  lemma SepSplit(u: seq<char>, k: nat)
    requires OccursAt(u, SchemeSep, k)
    ensures u == u[..k] + SchemeSep + AfterSep(u, k)
  {
  }

  /** u cut after "://" at k, the host of p characters and the path of n characters. */
  lemma SlashSplit(u: seq<char>, k: nat, p: nat, n: nat)
    requires OccursAt(u, SchemeSep, k) && k + 3 + p + n <= |u|
    ensures var rest := AfterSep(u, k);
            u == u[..k] + SchemeSep + rest[..p] + rest[p..][..n] + u[k + 3 + p + n..] &&
            u[|u[..k] + SchemeSep + rest[..p]|..] == rest[p..] &&
            u[k + 3 + p + n..] == rest[p..][n..]
  {
    var rest := AfterSep(u, k);
    assert rest == rest[..p] + rest[p..][..n] + rest[p..][n..];
    SepSplit(u, k);
  }

  const Uint32Size: nat := 0x1_0000_0000

  /** The copies parse_url makes as it stands: its return code and the number of characters
   *  memcpy copies into the host and the path buffers (a terminator follows each). */
  datatype Copies = Copies(rc: Err, hostLen: Option<nat>, pathLen: Option<nat>)

  /** parse_url exactly as written: the branch without '/' copies the host and "/" unchecked,
   *  and the fragment is searched for from the host on, the difference of the two positions
   *  being stored in a uint32. */
  function ParseUrlAsWritten(u: seq<char>, maxScheme: nat, maxHost: nat, maxPath: nat): (w: Copies)
    requires |u| < Uint32Size && maxPath < Uint32Size
    ensures w.pathLen.Some? ==> w.hostLen.Some?
  {
    match Find(u, SchemeSep)
    case None => Copies(HttpParse, None, None)
    case Some(k) =>
      if maxScheme < k + 1 then Copies(HttpParse, None, None)
      else
        var rest := AfterSep(u, k);
        match FindChar(rest, '/')
        case None => Copies(Success, Some(|rest|), Some(1))
        case Some(p) =>
          if maxHost < p + 1 then Copies(HttpParse, None, None)
          else
            var pathLen := WrittenPathLen(rest, p);
            if maxPath < (pathLen + 1) % Uint32Size then Copies(HttpParse, Some(p), None)
            else Copies(Success, Some(p), Some(pathLen))
  }

  /** The path length parse_url computes: from the '/' at p to the first '#' counted from the
   *  host on, as a uint32, or to the end when there is no '#'. */
  function WrittenPathLen(rest: seq<char>, p: nat): nat
    requires p <= |rest|
  {
    match FindChar(rest, '#')
    case None => |rest| - p
    case Some(f) => (f - p) % Uint32Size
  }

  lemma ModSmall(a: int)
    requires 0 <= a < Uint32Size
    ensures a % Uint32Size == a
  {
  }

  /** With no '#' in the host, that length is the length of the path. */
  lemma WrittenPathLenAgrees(rest: seq<char>, p: nat)
    requires p <= |rest| < Uint32Size && '#' !in rest[..p]
    ensures WrittenPathLen(rest, p) == PathLen(rest[p..])
  {
    FindCharAfter(rest, '#', p);
    match FindChar(rest, '#')
    case None =>
    case Some(f) =>
      ModSmall(f - p);
  }

  /** A copy that does not fit its buffer: more characters plus the terminator than its capacity. */
  predicate Overflows(w: Copies, maxHost: nat, maxPath: nat) {
    (w.hostLen.Some? && w.hostLen.value + 1 > maxHost) ||
    (w.pathLen.Some? && w.pathLen.value + 1 > maxPath)
  }

  lemma HttpSep(u: seq<char>)
    requires |u| >= 7 && u[..7] == "http://"
    ensures Find(u, SchemeSep) == Some(4) && AfterSep(u, 4) == u[7..]
  {
    forall j | 0 <= j < 4 ensures !OccursAt(u, SchemeSep, j) {
      assert u[j..j + 3][0] == u[..7][j] != ':';
    }
    assert u[4..7] == u[..7][4..7];
    FindIs(u, SchemeSep, 4);
  }

  /** Without a '/' after the host, the host is copied whatever its length: "http://abcd" with
   *  a 4-character host buffer gets five characters written into it, and the call succeeds. */
  lemma HostUnchecked()
    ensures var u := "http://abcd";
            var w := ParseUrlAsWritten(u, 8, 4, 8);
            w == Copies(Success, Some(4), Some(1)) && Overflows(w, 4, 8) &&
            ParseUrlOutcome(u, 8, 4, 8).rc == HttpParse
  {
    var u := "http://abcd";
    HttpSep(u);
    assert AfterSep(u, 4) == "abcd";
    assert '/' !in "abcd";
  }

  /** The positions in "http://a#/x" that both versions look at. */
  lemma WrapUrl()
    ensures var u := "http://a#/x";
            HasSep(u) && Find(u, SchemeSep) == Some(4) && Scheme(u) == "http" && Rest(u) == "a#/x" &&
            FindChar(Rest(u), '/') == Some(2) && FindChar(Rest(u), '#') == Some(1) &&
            Host(u) == "a#" && Path(u) == "/x"
  {
    var u := "http://a#/x";
    HttpSep(u);
    assert u[..4] == "http";
    WrapRest(AfterSep(u, 4));
  }

  lemma WrapRest(rest: seq<char>)
    requires rest == "a#/x"
    ensures FindChar(rest, '/') == Some(2) && FindChar(rest, '#') == Some(1)
    ensures rest[..2] == "a#" && rest[2..][..PathLen(rest[2..])] == "/x"
  {
    FindCharIs(rest, '/', 2);
    FindCharIs(rest, '#', 1);
    assert rest[2..] == "/x" && rest[..2] == "a#";
    assert '#' !in "/x";
    assert PathLen("/x") == 2;
    assert "/x"[..2] == "/x";
  }

  /** The positions in "http://a#b/x" that both versions look at. */
  lemma RefusedUrl()
    ensures var u := "http://a#b/x";
            HasSep(u) && Find(u, SchemeSep) == Some(4) && Scheme(u) == "http" && Rest(u) == "a#b/x" &&
            FindChar(Rest(u), '/') == Some(3) && FindChar(Rest(u), '#') == Some(1) &&
            Host(u) == "a#b" && Path(u) == "/x"
  {
    var u := "http://a#b/x";
    HttpSep(u);
    assert u[..4] == "http";
    RefusedRest(AfterSep(u, 4));
  }

  lemma RefusedRest(rest: seq<char>)
    requires rest == "a#b/x"
    ensures FindChar(rest, '/') == Some(3) && FindChar(rest, '#') == Some(1)
    ensures rest[..3] == "a#b" && rest[3..][..PathLen(rest[3..])] == "/x"
  {
    FindCharIs(rest, '/', 3);
    FindCharIs(rest, '#', 1);
    assert rest[3..] == "/x" && rest[..3] == "a#b";
    assert '#' !in "/x";
    assert PathLen("/x") == 2;
    assert "/x"[..2] == "/x";
  }

  /** A '#' just before the first '/' makes the path length -1, stored as 0xFFFFFFFF; its
   *  bound check wraps to 0 < max_path_len and passes, and memcpy is asked for 4294967295
   *  characters. */
  lemma FragmentWraps()
    ensures var w := ParseUrlAsWritten("http://a#/x", 8, 8, 8);
            w == Copies(Success, Some(2), Some(0xFFFF_FFFF)) && Overflows(w, 8, 8)
  {
    WrapUrl();
    assert (1 - 2) % Uint32Size == 0xFFFF_FFFF;
    assert (0xFFFF_FFFF + 1) % Uint32Size == 0;
  }

  /** A '#' further before the first '/' makes the bound check fail, although path and
   *  capacity are fine: "http://a#b/x" is refused. */
  lemma FragmentRefused()
    ensures ParseUrlAsWritten("http://a#b/x", 8, 8, 8).rc == HttpParse
  {
    RefusedUrl();
    assert (1 - 3) % Uint32Size == 0xFFFF_FFFE;
    assert (0xFFFF_FFFE + 1) % Uint32Size == 0xFFFF_FFFF;
  }

  /** With the fragment searched for from the path on, both URLs parse, with the path "/x". */
  lemma FragmentIntended()
    ensures ParseUrlOutcome("http://a#/x", 8, 8, 8) == UrlOutcome(Success, Some(0), Some("http"), Some("a#"), Some("/x"))
    ensures ParseUrlOutcome("http://a#b/x", 8, 8, 8) == UrlOutcome(Success, Some(0), Some("http"), Some("a#b"), Some("/x"))
  {
    WrapUrl();
    RefusedUrl();
    ParseUrlWrites("http://a#/x", 8, 8, 8);
    ParseUrlWrites("http://a#b/x", 8, 8, 8);
  }

  /** The uint32 arithmetic on a path length measured from a '#' at f before the '/' at p. */
  lemma WrapLen(f: nat, p: nat)
    requires f < p < Uint32Size
    ensures (f - p) % Uint32Size == Uint32Size + f - p
    ensures ((f - p) % Uint32Size + 1) % Uint32Size == if f + 1 == p then 0 else Uint32Size + f - p + 1
  {
  }

  /**
   * Exactly when the code as written copies more into a buffer than it holds: without a '/'
   * after the host, when the host or "/" with its terminator does not fit; with one, when the
   * first '#' of the host is its last character, so that the path length wraps to 0xFFFFFFFF
   * and the bound check passes. Every other input, a '#' elsewhere in the host included, is
   * either refused or copied within the capacities.
   */
  lemma OverflowsExactly(u: seq<char>, maxScheme: nat, maxHost: nat, maxPath: nat)
    requires |u| < Uint32Size && maxPath < Uint32Size
    ensures Overflows(ParseUrlAsWritten(u, maxScheme, maxHost, maxPath), maxHost, maxPath) <==>
            HasSep(u) && |Scheme(u)| < maxScheme &&
            (('/' !in Rest(u) && (maxHost < |Rest(u)| + 1 || maxPath < 2)) ||
             ('/' in Rest(u) && |Host(u)| < maxHost && 0 < |Host(u)| && FindChar(Host(u), '#') == Some(|Host(u)| - 1)))
  {
    match Find(u, SchemeSep)
    case None =>
      assert ParseUrlAsWritten(u, maxScheme, maxHost, maxPath) == Copies(HttpParse, None, None);
    case Some(k) =>
      if maxScheme < k + 1 {
        assert ParseUrlAsWritten(u, maxScheme, maxHost, maxPath) == Copies(HttpParse, None, None);
      } else {
        var rest := AfterSep(u, k);
        assert Rest(u) == rest;
        match FindChar(rest, '/')
        case None =>
          NoSlashOverflows(u, maxScheme, maxHost, maxPath, k);
        case Some(p) =>
          assert Host(u) == rest[..p];
          SlashOverflows(u, maxScheme, maxHost, maxPath, k, p);
      }
  }

  /** The branch without a '/' after the host: the copies overflow exactly when the host or
   *  "/" with its terminator does not fit. */
  lemma NoSlashOverflows(u: seq<char>, maxScheme: nat, maxHost: nat, maxPath: nat, k: nat)
    requires |u| < Uint32Size && maxPath < Uint32Size
    requires Find(u, SchemeSep) == Some(k) && k + 1 <= maxScheme
    requires FindChar(AfterSep(u, k), '/') == None
    ensures Overflows(ParseUrlAsWritten(u, maxScheme, maxHost, maxPath), maxHost, maxPath) <==>
            maxHost < |AfterSep(u, k)| + 1 || maxPath < 2
  {
    assert ParseUrlAsWritten(u, maxScheme, maxHost, maxPath) == Copies(Success, Some(|AfterSep(u, k)|), Some(1));
  }

  /** The branch with a '/' at p after the host: the copies overflow exactly when the host fits
   *  and its first '#' is its last character. */
  lemma SlashOverflows(u: seq<char>, maxScheme: nat, maxHost: nat, maxPath: nat, k: nat, p: nat)
    requires |u| < Uint32Size && maxPath < Uint32Size
    requires Find(u, SchemeSep) == Some(k) && k + 1 <= maxScheme
    requires FindChar(AfterSep(u, k), '/') == Some(p)
    ensures Overflows(ParseUrlAsWritten(u, maxScheme, maxHost, maxPath), maxHost, maxPath) <==>
            p < maxHost && 0 < p && FindChar(AfterSep(u, k)[..p], '#') == Some(p - 1)
  {
    if p < maxHost {
      AsWrittenSlash(u, maxScheme, maxHost, maxPath, k, p);
      SlashPathOverflows(AfterSep(u, k), p, maxPath);
    } else {
      assert ParseUrlAsWritten(u, maxScheme, maxHost, maxPath) == Copies(HttpParse, None, None);
    }
  }

  /** The code as written on a URL whose host, ending at the '/' at p, fits: the host is copied
   *  and the path is when its wrapped length passes the bound check. */
  lemma AsWrittenSlash(u: seq<char>, maxScheme: nat, maxHost: nat, maxPath: nat, k: nat, p: nat)
    requires |u| < Uint32Size && maxPath < Uint32Size
    requires Find(u, SchemeSep) == Some(k) && k + 1 <= maxScheme
    requires FindChar(AfterSep(u, k), '/') == Some(p) && p < maxHost
    ensures var pathLen := WrittenPathLen(AfterSep(u, k), p);
            ParseUrlAsWritten(u, maxScheme, maxHost, maxPath)
            == if maxPath < (pathLen + 1) % Uint32Size then Copies(HttpParse, Some(p), None)
               else Copies(Success, Some(p), Some(pathLen))
  {
  }

  /** The branch with a '/' at p after a host that fits: the path copy overflows exactly when
   *  the first '#' of the host is just before that '/'. */
  lemma SlashPathOverflows(rest: seq<char>, p: nat, maxPath: nat)
    requires p < |rest| && |rest| + 1 < Uint32Size && maxPath < Uint32Size
    ensures var pathLen := WrittenPathLen(rest, p);
            (maxPath >= (pathLen + 1) % Uint32Size && pathLen + 1 > maxPath) <==>
            (0 < p && FindChar(rest[..p], '#') == Some(p - 1))
  {
    match FindChar(rest, '#')
    case None =>
      assert '#' !in rest[..p] by {
        forall j | 0 <= j < p ensures rest[..p][j] != '#' { assert rest[..p][j] == rest[j]; }
      }
      ModSmall(|rest| - p + 1);
    case Some(f) =>
      if f < p {
        WrapLen(f, p);
        assert rest[..p][f] == '#';
        assert '#' !in rest[..p][..f] by { assert rest[..p][..f] == rest[..f]; }
        FindCharIs(rest[..p], '#', f);
      } else {
        assert '#' !in rest[..p] by {
          forall j | 0 <= j < p ensures rest[..p][j] != '#' { assert rest[..f][j] == rest[j]; }
        }
        ModSmall(f - p);
        ModSmall(f - p + 1);
      }
  }

  /** Where the corrections make no difference the code as written copies what ParseUrlOutcome
   *  describes: a host without '#' that is followed by a '/', or one that fits with a path
   *  buffer of two characters or more. */
  lemma AsWrittenAgrees(u: seq<char>, maxScheme: nat, maxHost: nat, maxPath: nat)
    requires |u| < Uint32Size && maxPath < Uint32Size
    requires HasSep(u) ==> '#' !in Host(u)
    requires HasSep(u) && '/' !in Rest(u) ==> |Rest(u)| < maxHost && 2 <= maxPath
    ensures ParseUrlAsWritten(u, maxScheme, maxHost, maxPath).rc == ParseUrlOutcome(u, maxScheme, maxHost, maxPath).rc
    ensures !Overflows(ParseUrlAsWritten(u, maxScheme, maxHost, maxPath), maxHost, maxPath)
    ensures var o := ParseUrlOutcome(u, maxScheme, maxHost, maxPath);
            o.host.Some? ==> ParseUrlAsWritten(u, maxScheme, maxHost, maxPath).hostLen == Some(|o.host.value|)
    ensures var o := ParseUrlOutcome(u, maxScheme, maxHost, maxPath);
            o.path.Some? ==> ParseUrlAsWritten(u, maxScheme, maxHost, maxPath).pathLen == Some(|o.path.value|)
  {
    var w := ParseUrlAsWritten(u, maxScheme, maxHost, maxPath);
    var o := ParseUrlOutcome(u, maxScheme, maxHost, maxPath);
    match Find(u, SchemeSep)
    case None =>
      assert w.rc == HttpParse && o.rc == HttpParse;
    case Some(k) =>
      if maxScheme < k + 1 {
        assert w.rc == HttpParse && o.rc == HttpParse;
      } else {
        var rest := AfterSep(u, k);
        assert Rest(u) == rest;
        match FindChar(rest, '/')
        case None =>
          assert |rest| < maxHost && 2 <= maxPath;
          assert w == Copies(Success, Some(|rest|), Some(1));
          assert o == UrlOutcome(Success, Some(0), Some(u[..k]), Some(rest), Some("/"));
        case Some(p) =>
          assert Host(u) == rest[..p];
          if maxHost < p + 1 {
            assert w.rc == HttpParse && o.rc == HttpParse;
          } else {
            WrittenPathLenAgrees(rest, p);
            var n := PathLen(rest[p..]);
            assert WrittenPathLen(rest, p) == n;
            assert n + 1 < Uint32Size by {
              assert n <= |rest| - p && |rest| < |u|;
            }
            ModSmall(n + 1);
            if maxPath < n + 1 {
              assert w == Copies(HttpParse, Some(p), None);
              assert o.rc == HttpParse;
            } else {
              assert w == Copies(Success, Some(p), Some(n));
              assert o == UrlOutcome(Success, Some(0), Some(u[..k]), Some(rest[..p]), Some(rest[p..][..n]));
            }
          }
      }
  }

  /** _http_client_parse_host on the URL text u: the host, when there is a "://" and the host
   *  fits a buffer of maxHost characters with its terminator. */
  function ParseHostResult(u: seq<char>, maxHost: nat): (r: Result<seq<char>>)
    ensures r.Ok? ==> |r.value| < maxHost
    ensures r.Fail? ==> r.err == HttpParse
  {
    match Find(u, SchemeSep)
    case None => Fail(HttpParse)
    case Some(k) =>
      var rest := AfterSep(u, k);
      var hostLen := match FindChar(rest, '/')
        case Some(p) => p
        case None => |u| - (k + 3);
      if maxHost < hostLen + 1 then Fail(HttpParse) else Ok(rest[..hostLen])
  }

  /** parse_host gives the host of the URL exactly when it has one that fits. */
  lemma ParseHostIsHost(u: seq<char>, maxHost: nat)
    ensures ParseHostResult(u, maxHost) == if HasSep(u) && |Host(u)| < maxHost then Ok(Host(u)) else Fail(HttpParse)
  {
    if HasSep(u) {
      var rest := Rest(u);
      match FindChar(rest, '/')
      case None =>
        assert rest[..|rest|] == rest;
      case Some(p) =>
    }
  }

  /** parse_host and parse_url agree on the host: whenever parse_url stores a host, parse_host
   *  with the same capacity returns that host. */
  lemma ParseHostAgrees(u: seq<char>, maxScheme: nat, maxHost: nat, maxPath: nat)
    requires ParseUrlOutcome(u, maxScheme, maxHost, maxPath).host.Some?
    ensures ParseHostResult(u, maxHost) == Ok(ParseUrlOutcome(u, maxScheme, maxHost, maxPath).host.value)
  {
    ParseUrlWrites(u, maxScheme, maxHost, maxPath);
    ParseHostIsHost(u, maxHost);
  }

  /** A buffer after an optional store of a C string. */
  function Written(b: seq<char>, t: Option<seq<char>>): seq<char>
    requires t.Some? ==> |t.value| < |b|
  {
    if t.Some? then Stored(b, t.value) else b
  }

  /** _http_client_parse_url: split the C string in url into scheme, host and path buffers of
   *  the given capacities; the port returned is the value stored in *port, if any. */
  method ParseUrl(url: array<char>, scheme: array<char>, maxScheme: nat, host: array<char>, maxHost: nat,
                  path: array<char>, maxPath: nat) returns (rc: Err, port: Option<int>)
    requires NUL in url[..]
    requires maxScheme <= scheme.Length && maxHost <= host.Length && maxPath <= path.Length
    requires scheme != host && scheme != path && host != path
    modifies scheme, host, path
    ensures var o := ParseUrlOutcome(old(CText(url[..])), maxScheme, maxHost, maxPath);
            rc == o.rc && port == o.port &&
            scheme[..] == Written(old(scheme[..]), o.scheme) &&
            host[..] == Written(old(host[..]), o.host) &&
            path[..] == Written(old(path[..]), o.path)
  {
    var n := StrLen(url);
    var u := url[..n];
    assert u == CText(url[..]);
    rc, port := HttpParse, None;
    var found := Find(u, SchemeSep);
    if found.None? {
      return;
    }
    var k := found.value;
    if maxScheme < k + 1 {
      return;
    }
    CopyString(scheme, u[..k]);
    port := Some(0);
    var rest := AfterSep(u, k);
    var slash := FindChar(rest, '/');
    if slash.None? {
      if maxHost < |rest| + 1 {
        return;
      }
      CopyString(host, rest);
      if maxPath < 2 {
        return;
      }
      CopyString(path, "/");
      rc := Success;
      return;
    }
    var p := slash.value;
    if maxHost < p + 1 {
      return;
    }
    CopyString(host, rest[..p]);
    var tail := rest[p..];
    var len := PathLen(tail);
    if maxPath < len + 1 {
      return;
    }
    CopyString(path, tail[..len]);
    rc := Success;
  }

  /** _http_client_parse_host: copy the host of the C string in url into a buffer of the given
   *  capacity. */
  method ParseHost(url: array<char>, host: array<char>, maxHost: nat) returns (rc: Err)
    requires NUL in url[..] && maxHost <= host.Length
    modifies host
    ensures var r := ParseHostResult(old(CText(url[..])), maxHost);
            rc == (if r.Ok? then Success else r.err) &&
            host[..] == if r.Ok? then Stored(old(host[..]), r.value) else old(host[..])
  {
    var n := StrLen(url);
    var u := url[..n];
    assert u == CText(url[..]);
    var found := Find(u, SchemeSep);
    if found.None? {
      return HttpParse;
    }
    var k := found.value;
    var rest := AfterSep(u, k);
    var hostLen;
    var slash := FindChar(rest, '/');
    if slash.Some? {
      hostLen := slash.value;
    } else {
      hostLen := n - (k + 3);
    }
    if maxHost < hostLen + 1 {
      return HttpParse;
    }
    CopyString(host, rest[..hostLen]);
    rc := Success;
  }
}
