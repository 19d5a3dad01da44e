// The meaning of a compressed block, independent of any buffer: a list of
// byte-level instructions replayed over everything decoded so far.
module History {
  import opened Wrappers
  import opened Bytes

  // `Put` emits a literal; `Copy` repeats the byte `dist` positions back.
  // A match of length len at distance d is len times Copy(d), which is what
  // makes a match longer than its distance repeat itself.
  datatype Op = Put(b: byte) | Copy(dist: nat)

  // The bytes that `ops` produce after the history `h`; None when a copy
  // reaches back beyond the first byte.
  function Expand(h: seq<byte>, ops: seq<Op>): (r: Option<seq<byte>>)
    ensures r.Some? ==> |r.value| == |ops|
  {
    if ops == [] then Some([])
    else
      var n := |ops| - 1;
      var before := Expand(h, ops[..n]);
      if before.None? then None
      else
        match ops[n]
        case Put(b) => Some(before.value + [b])
        case Copy(d) =>
          if 1 <= d <= |h| + n then Some(before.value + [(h + before.value)[|h| + n - d]]) else None
  }

  // Instruction number i of a block, seen from the finished message m.
  predicate Yields(h: seq<byte>, m: seq<byte>, i: nat, op: Op)
    requires i < |m|
  {
    match op
    case Put(b) => m[i] == b
    case Copy(d) => 1 <= d <= |h| + i && m[i] == (h + m)[|h| + i - d]
  }

  ghost predicate Describes(h: seq<byte>, ops: seq<Op>, m: seq<byte>) {
    |m| == |ops| && forall i :: 0 <= i < |m| ==> Yields(h, m, i, ops[i])
  }

  // Replaying a block is the same as solving its copy equations: there is
  // exactly one message that satisfies them, and it is the one replayed.
  lemma {:induction false} ExpandIffDescribes(h: seq<byte>, ops: seq<Op>, m: seq<byte>)
    ensures Expand(h, ops) == Some(m) <==> Describes(h, ops, m)
    decreases |ops|
  {
    if ops == [] {
      assert Expand(h, ops) == Some([]);
    } else if |m| == |ops| {
      var n := |ops| - 1;
      ExpandIffDescribes(h, ops[..n], m[..n]);
      assert m == m[..n] + [m[n]];
      forall i | 0 <= i < n
        ensures Yields(h, m, i, ops[i]) <==> Yields(h, m[..n], i, ops[..n][i])
      {
      }
      if Describes(h, ops, m) {
        assert Yields(h, m, n, ops[n]);
        assert Expand(h, ops[..n]) == Some(m[..n]);
      }
      if Expand(h, ops) == Some(m) {
        var before := Expand(h, ops[..n]).value;
        assert before == (before + [m[n]])[..n] == m[..n];
      }
    }
  }

  // Copies that stay within the history always succeed.
  lemma {:induction false} ExpandSucceeds(h: seq<byte>, ops: seq<Op>)
    requires forall i :: 0 <= i < |ops| && ops[i].Copy? ==> 1 <= ops[i].dist <= |h|
    ensures Expand(h, ops).Some?
    decreases |ops|
  {
    if ops == [] {
      assert Expand(h, ops) == Some([]);
    } else {
      ExpandSucceeds(h, ops[..|ops| - 1]);
    }
  }
}
