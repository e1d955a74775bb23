/**
 * The in-place edits the shadow client makes to an outgoing JSON document held in a
 * fixed-size char buffer (shadow_glue_json_node_insert, shadow_glue_json_request_method_set).
 */
module ShadowDocText {
  import opened Qcloud
  import opened CString

  /** A document operation (qcloud_shadow_req_method_t). */
  datatype Method = Get | Update

  /** The operation names of the shadow protocol (SHADOW_OPERATION_GET, _UPDATE, _DELTA). */
  const OperationGet: string := "get"
  const OperationUpdate: string := "update"
  const OperationDelta: string := "delta"

  function MethodName(m: Method): string {
    match m
    case Get => OperationGet
    case Update => OperationUpdate
  }

  /** The node that method_set formats into its 64-byte scratch array: "type":"<name>", */
  function TypeNode(m: Method): (node: seq<char>)
    ensures NoNul(node) && |node| < 64
  {
    "\"type\":\"" + MethodName(m) + "\", "
  }

  /** Text s with node placed at pos. */
  function Inserted(s: seq<char>, node: seq<char>, pos: nat): (r: seq<char>)
    requires pos <= |s|
    ensures |r| == |s| + |node|
    ensures r[..pos] == s[..pos] && r[pos..pos + |node|] == node && r[pos + |node|..] == s[pos..]
  {
    s[..pos] + node + s[pos..]
  }

  /**
   * Byte k of buffer b after node_insert(b, node, pos), where len is strlen(b): the tail from
   * pos is moved up by |node|, node is copied to pos, and a NUL is written at len + |node|.
   * When pos > len nothing is moved, so the old terminator at len stays in place.
   */
  function InsertedByte(b: seq<char>, len: nat, node: seq<char>, pos: nat, k: nat): char
    requires k < |b|
  {
    var n := |node|;
    if k == len + n then NUL
    else if pos <= k < pos + n then node[k - pos]
    else if pos + n <= k < len + n then b[k - n]
    else b[k]
  }

  function InsertedBuffer(b: seq<char>, len: nat, node: seq<char>, pos: nat): (r: seq<char>)
    ensures |r| == |b|
  {
    seq(|b|, k requires 0 <= k < |b| => InsertedByte(b, len, node, pos, k))
  }

  /** Splicing text free of NUL into text free of NUL leaves no NUL. */
  lemma InsertedNoNul(s: seq<char>, node: seq<char>, pos: nat)
    requires pos <= |s| && NoNul(s) && NoNul(node)
    ensures NoNul(Inserted(s, node, pos))
  {
    var t := Inserted(s, node, pos);
    forall k | 0 <= k < |t| ensures t[k] != NUL {
      if k < pos {
        assert t[k] == t[..pos][k];
      } else if k < pos + |node| {
        assert t[k] == t[pos..pos + |node|][k - pos];
      } else {
        assert t[k] == t[pos + |node|..][k - pos - |node|] == s[pos..][k - pos - |node|];
      }
    }
  }

  /** In front of the new terminator, the buffer holds the spliced text. */
  lemma InsertedPrefix(b: seq<char>, len: nat, node: seq<char>, pos: nat)
    requires pos <= len && len + |node| < |b| && NoNul(b[..len]) && NoNul(node)
    ensures InsertedBuffer(b, len, node, pos)[..len + |node|] == Inserted(b[..len], node, pos)
    ensures InsertedBuffer(b, len, node, pos)[len + |node|] == NUL
    ensures NoNul(InsertedBuffer(b, len, node, pos)[..len + |node|])
  {
    InsertedNoNul(b[..len], node, pos);
    var nb := InsertedBuffer(b, len, node, pos);
    var t := Inserted(b[..len], node, pos);
    forall k | 0 <= k < |t| ensures nb[k] == t[k] {
      assert nb[k] == InsertedByte(b, len, node, pos, k);
      if k < pos {
        assert t[k] == t[..pos][k];
      } else if k < pos + |node| {
        assert t[k] == t[pos..pos + |node|][k - pos];
      } else {
        assert t[k] == t[pos + |node|..][k - pos - |node|];
      }
    }
  }

  /** With pos past the end, the text and its terminator stay where they were. */
  lemma InsertedPast(b: seq<char>, len: nat, node: seq<char>, pos: nat)
    requires pos > len && len + |node| < |b| && b[len] == NUL && NoNul(b[..len])
    ensures InsertedBuffer(b, len, node, pos)[..len] == b[..len]
    ensures InsertedBuffer(b, len, node, pos)[len] == NUL
    ensures NoNul(InsertedBuffer(b, len, node, pos)[..len])
  {
    var nb := InsertedBuffer(b, len, node, pos);
    assert nb[len] == InsertedByte(b, len, node, pos, len);
    forall k | 0 <= k < len ensures nb[..len][k] == b[..len][k] {
      assert nb[k] == InsertedByte(b, len, node, pos, k);
    }
  }

  /**
   * What the buffer holds as a C string after the insertion: the document with the node
   * spliced in at pos, or (pos past the end) the document unchanged.
   */
  lemma InsertedText(b: seq<char>, len: nat, node: seq<char>, pos: nat)
    requires NUL in b && len == CLen(b) && NoNul(node)
    requires len + |node| < |b|
    ensures NUL in InsertedBuffer(b, len, node, pos)
    ensures pos <= len ==> CText(InsertedBuffer(b, len, node, pos)) == Inserted(b[..len], node, pos)
    ensures pos > len ==> CText(InsertedBuffer(b, len, node, pos)) == b[..len]
  {
    var nb := InsertedBuffer(b, len, node, pos);
    if pos <= len {
      InsertedPrefix(b, len, node, pos);
      CLenAt(nb, len + |node|);
    } else {
      InsertedPast(b, len, node, pos);
      CLenAt(nb, len);
    }
  }

  /** Buffer b after its bytes pos..len-1 are moved up by n (nothing moves when pos > len). */
  function ShiftedBuffer(b: seq<char>, len: nat, n: nat, pos: nat): (r: seq<char>)
    ensures |r| == |b|
  {
    seq(|b|, k requires 0 <= k < |b| => if pos <= len && pos + n <= k < len + n && k - n < |b| then b[k - n] else b[k])
  }

  /** Buffer b with node copied over b[pos..pos + |node|]. */
  function CopiedBuffer(b: seq<char>, node: seq<char>, pos: nat): (r: seq<char>)
    requires pos + |node| <= |b|
    ensures |r| == |b|
  {
    seq(|b|, k requires 0 <= k < |b| => if pos <= k < pos + |node| then node[k - pos] else b[k])
  }

  /** The first loop of node_insert: move doc[pos..len] up by n, from the last byte down. */
  method ShiftTail(doc: array<char>, len: nat, n: nat, pos: nat)
    requires len + n < doc.Length
    modifies doc
    ensures doc[..] == ShiftedBuffer(old(doc[..]), len, n, pos)
  {
    var i: int := len - 1;
    while i >= pos
      invariant i <= len - 1 && (i >= pos - 1 || i == len - 1)
      invariant i == len - 1 ==> doc[..] == old(doc[..])
      invariant forall k :: 0 <= k < i + 1 + n && k < len + n ==> doc[k] == old(doc[k])
      invariant forall k :: i + 1 + n <= k < len + n ==> doc[k] == old(doc[k - n])
      invariant forall k :: len + n <= k < doc.Length ==> doc[k] == old(doc[k])
      decreases i
    {
      doc[i + n] := doc[i];
      i := i - 1;
    }
    ghost var r := ShiftedBuffer(old(doc[..]), len, n, pos);
    forall k | 0 <= k < doc.Length ensures doc[k] == r[k] {
      if i == len - 1 {
        assert doc[k] == doc[..][k];
      }
    }
  }

  /** The second loop of node_insert: copy node to doc[pos..pos + |node|]. */
  method CopyIn(doc: array<char>, node: seq<char>, pos: nat)
    requires pos + |node| <= doc.Length
    modifies doc
    ensures doc[..] == CopiedBuffer(old(doc[..]), node, pos)
  {
    var n := 0;
    while n < |node|
      invariant 0 <= n <= |node|
      invariant forall k :: 0 <= k < doc.Length ==> doc[k] == if pos <= k < pos + n then node[k - pos] else old(doc[k])
    {
      doc[pos + n] := node[n];
      n := n + 1;
    }
    ghost var r := CopiedBuffer(old(doc[..]), node, pos);
    forall k | 0 <= k < doc.Length ensures doc[k] == r[k] { }
  }

  /** shadow_glue_json_node_insert: shift the tail of the document up and copy node in at pos. */
  method NodeInsert(doc: array<char>, node: seq<char>, pos: nat)
    requires NUL in doc[..] && NoNul(node)
    requires pos + |node| <= doc.Length
    requires CLen(doc[..]) + |node| < doc.Length
    modifies doc
    ensures doc[..] == InsertedBuffer(old(doc[..]), old(CLen(doc[..])), node, pos)
  {
    var len := StrLen(doc);
    var nlen := |node|;
    ghost var b := doc[..];
    ShiftTail(doc, len, nlen, pos);
    CopyIn(doc, node, pos);
    doc[len + nlen] := NUL;
    NodeInsertBytes(b, len, node, pos);
  }

  /** The two loops and the final store of node_insert give InsertedBuffer. */
  lemma NodeInsertBytes(b: seq<char>, len: nat, node: seq<char>, pos: nat)
    requires len + |node| < |b| && pos + |node| <= |b|
    ensures CopiedBuffer(ShiftedBuffer(b, len, |node|, pos), node, pos)[len + |node| := NUL] == InsertedBuffer(b, len, node, pos)
  {
    var f := CopiedBuffer(ShiftedBuffer(b, len, |node|, pos), node, pos)[len + |node| := NUL];
    var r := InsertedBuffer(b, len, node, pos);
    forall k | 0 <= k < |b| ensures f[k] == r[k] {
      assert r[k] == InsertedByte(b, len, node, pos, k);
    }
  }

  /**
   * The document text method_set leaves behind, for a text held in a buffer of size bytes:
   * refused with Inval unless the text, the node and the terminator leave one byte spare.
   */
  function MethodSetText(text: seq<char>, size: nat, m: Method): (r: Result<seq<char>>)
    requires |text| < size
    ensures r.Fail? <==> |text| + |TypeNode(m)| + 1 >= size
    ensures r.Fail? ==> r.err == Inval
    ensures r.Ok? ==> |r.value| + 1 < size
  {
    var node := TypeNode(m);
    if |node| >= size - |text| - 1 then Fail(Inval)
    else Ok(if 1 <= |text| then Inserted(text, node, 1) else text)
  }

  /** shadow_glue_json_request_method_set on a buffer of size bytes (json_doc_size): insert
   *  "type":"get|update", just after the opening brace. */
  method MethodSet(doc: array<char>, size: nat, m: Method) returns (rc: Err)
    requires NUL in doc[..] && CLen(doc[..]) < size <= doc.Length
    modifies doc
    ensures NUL in doc[..]
    ensures MethodSetText(old(CText(doc[..])), size, m) == if rc == Success then Ok(CText(doc[..])) else Fail(rc)
    ensures rc != Success ==> doc[..] == old(doc[..])
    ensures rc == Success ==> doc[..] == InsertedBuffer(old(doc[..]), old(CLen(doc[..])), TypeNode(m), 1)
  {
    var len := StrLen(doc);
    var remaining := size - len;
    var node := TypeNode(m);
    if |node| >= remaining - 1 {
      return Inval;
    }
    ghost var b := doc[..];
    NodeInsert(doc, node, 1);
    InsertedText(b, len, node, 1);
    return Success;
  }
}
