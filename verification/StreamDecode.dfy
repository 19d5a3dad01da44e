// The streaming decoder context of LZ4_decompress_safe_continue: where the
// bytes decoded last lie in memory, and which memory a match is read from.
// Addresses are positions in one array standing for the memory around the
// output buffer.
module StreamDecode {
  import opened Wrappers
  import opened Bytes
  import opened Files
  import opened History
  import opened BlockFormat

  const WINDOW: nat := 65536

  datatype Context = Context(prefixEnd: nat, prefixSize: nat, extDict: nat, extDictSize: nat) {
    predicate Valid(limit: nat) {
      prefixSize <= prefixEnd <= limit && extDict + extDictSize <= limit
    }
  }

  const RESET: Context := Context(0, 0, 0, 0)

  // The memory one call may read from: a prefix that starts at `low` and runs
  // up to the output position, and an external segment before it.
  datatype View = View(low: int, ext: nat, extSize: nat)

  // The three cases of a call that writes to `dest`: no history yet, output
  // that continues the current segment, and a switch to another segment.
  function ViewAt(c: Context, dest: nat): (v: View)
    requires c.prefixSize <= c.prefixEnd
  {
    if c.prefixSize == 0 then View(dest, 0, 0)
    else if c.prefixEnd == dest then
      if c.prefixSize >= WINDOW - 1 then View(dest - WINDOW, 0, 0)
      else View(dest - c.prefixSize, c.extDict, c.extDictSize)
    else View(dest, c.prefixEnd - c.prefixSize, c.prefixSize)
  }

  // The context after a call that wrote n > 0 bytes at `dest`.
  function After(c: Context, dest: nat, n: nat): Context
    requires c.prefixSize <= c.prefixEnd
  {
    if c.prefixSize == 0 then c.(prefixSize := n, prefixEnd := dest + n)
    else if c.prefixEnd == dest then c.(prefixSize := c.prefixSize + n, prefixEnd := c.prefixEnd + n)
    else Context(dest + n, n, c.prefixEnd - c.prefixSize, c.prefixSize)
  }

  // The address a copy of distance d reads when the output has reached `op`.
  function Locate(v: View, op: nat, d: nat): (a: Option<nat>)
    requires v.low <= op
    ensures a.Some? ==> a.value < op || a.value < v.ext + v.extSize
  {
    if d == 0 || op - d < v.low - v.extSize then None
    else if op - d >= v.low then (if d <= op then Some(op - d) else None)
    else Some(v.ext + v.extSize - (v.low - (op - d)))
  }

  predicate Fits(v: View, dest: nat, n: nat, mem: seq<byte>) {
    && v.low <= dest && dest + n <= |mem| && v.ext + v.extSize <= |mem|
    && (v.low < 0 ==> v.extSize == 0)
  }

  // Byte-by-byte decoding in memory: every copy reads what the memory holds
  // at that moment. None when a distance points outside the view.
  function Replay(mem: seq<byte>, v: View, dest: nat, ops: seq<Op>): (r: Option<seq<byte>>)
    requires Fits(v, dest, |ops|, mem)
    ensures r.Some? ==> |r.value| == |mem|
    decreases |ops|
  {
    if ops == [] then Some(mem)
    else
      var n := |ops| - 1;
      var before := Replay(mem, v, dest, ops[..n]);
      if before.None? then None
      else
        match ops[n]
        case Put(b) => Some(before.value[dest + n := b])
        case Copy(d) =>
          var a := Locate(v, dest + n, d);
          if a.None? then None else Some(before.value[dest + n := before.value[a.value]])
  }

  lemma {:induction false} ReplayFails(mem: seq<byte>, v: View, dest: nat, ops: seq<Op>, i: nat)
    requires Fits(v, dest, |ops|, mem) && i <= |ops|
    requires Replay(mem, v, dest, ops[..i]).None?
    ensures Replay(mem, v, dest, ops).None?
    decreases |ops|
  {
    if i == |ops| {
      assert ops[..i] == ops;
    } else {
      var n := |ops| - 1;
      assert ops[..n][..i] == ops[..i];
      ReplayFails(mem, v, dest, ops[..n], i);
    }
  }

  // Nothing has changed but [at, at + n).
  ghost predicate KeepsOutside(mem: seq<byte>, after: seq<byte>, at: nat, n: nat) {
    && |mem| == |after| && at + n <= |mem|
    && after[..at] == mem[..at] && after[at + n..] == mem[at + n..]
  }

  lemma {:induction false} ReplayKeepsOutside(mem: seq<byte>, v: View, dest: nat, ops: seq<Op>, cap: nat)
    requires Fits(v, dest, cap, mem) && |ops| <= cap && Replay(mem, v, dest, ops).Some?
    ensures KeepsOutside(mem, Replay(mem, v, dest, ops).value, dest, cap)
    decreases |ops|
  {
    if ops == [] {
      assert Replay(mem, v, dest, ops) == Some(mem);
    } else {
      ReplayKeepsOutside(mem, v, dest, ops[..|ops| - 1], cap);
    }
  }

  // What decoding one block does to memory; None for a block that is
  // malformed, too long for `cap`, or copies from outside the view.
  datatype Written = Written(n: nat, mem: seq<byte>)

  function Generic(mem: seq<byte>, payload: seq<byte>, dest: nat, cap: nat, v: View): (r: Option<Written>)
    requires Fits(v, dest, cap, mem)
    ensures r.Some? ==> r.value.n <= cap && |r.value.mem| == |mem|
  {
    var block := Parse(payload);
    if block.None? || |Ops(block.value)| > cap then None
    else
      var after := Replay(mem, v, dest, Ops(block.value));
      if after.None? then None else Some(Written(|Ops(block.value)|, after.value))
  }

  lemma ReplayStep(mem: seq<byte>, v: View, dest: nat, ops: seq<Op>, i: nat)
    requires Fits(v, dest, |ops|, mem) && i < |ops|
    requires Replay(mem, v, dest, ops[..i]).Some?
    ensures var before := Replay(mem, v, dest, ops[..i]).value;
            Replay(mem, v, dest, ops[..i + 1]) ==
            match ops[i]
            case Put(b) => Some(before[dest + i := b])
            case Copy(d) =>
              var a := Locate(v, dest + i, d);
              if a.None? then None else Some(before[dest + i := before[a.value]])
  {
    assert ops[..i + 1][..i] == ops[..i];
  }

  lemma ReplayNothing(mem: seq<byte>, v: View, dest: nat)
    requires Fits(v, dest, 0, mem)
    ensures Replay(mem, v, dest, []) == Some(mem)
  {
  }

  // The result of one call: nothing usable (an error or an empty block), or
  // the number of bytes written with the new memory and context.
  datatype Outcome = Failed | Decoded(n: nat, mem: seq<byte>, ctx: Context)

  function Decompress(c: Context, mem: seq<byte>, payload: seq<byte>, dest: nat, cap: nat): (r: Outcome)
    requires c.Valid(|mem|) && dest + cap <= |mem|
    ensures r.Decoded? ==> 1 <= r.n <= cap && |r.mem| == |mem| && r.ctx.Valid(|mem|)
  {
    var w := Generic(mem, payload, dest, cap, ViewAt(c, dest));
    if w.None? || w.value.n == 0 then Failed
    else Decoded(w.value.n, w.value.mem, After(c, dest, w.value.n))
  }

  // What makes instruction i of a block read the right byte: its address is
  // either in the message itself, or in memory this block has not overwritten
  // by then, holding the byte of the history that the distance asks for.
  predicate ReadsHistory(mem: seq<byte>, v: View, dest: nat, h: seq<byte>, i: nat, op: Op)
    requires v.low <= dest + i
  {
    op.Copy? ==>
      && 1 <= op.dist <= |h| + i
      && var a := Locate(v, dest + i, op.dist);
      && a.Some?
      && (op.dist <= i ==> a.value == dest + i - op.dist)
      && (op.dist > i ==>
            a.value < |mem| && !(dest <= a.value < dest + i) && mem[a.value] == h[|h| + i - op.dist])
  }

  // Decoding in memory refines decoding over the complete history.
  lemma {:induction false} ReplayRefinesExpand(mem: seq<byte>, v: View, dest: nat, h: seq<byte>, ops: seq<Op>)
    requires Fits(v, dest, |ops|, mem)
    requires forall i :: 0 <= i < |ops| ==> ReadsHistory(mem, v, dest, h, i, ops[i])
    ensures Expand(h, ops).Some?
    ensures Replay(mem, v, dest, ops) == Some(Splice(mem, dest, Expand(h, ops).value))
    decreases |ops|
  {
    if ops == [] {
      assert Splice(mem, dest, []) == mem;
    } else {
      var n := |ops| - 1;
      forall i | 0 <= i < n
        ensures ReadsHistory(mem, v, dest, h, i, ops[..n][i])
      {
        assert ReadsHistory(mem, v, dest, h, i, ops[i]);
      }
      ReplayRefinesExpand(mem, v, dest, h, ops[..n]);
      var m := Expand(h, ops[..n]).value;
      assert ReadsHistory(mem, v, dest, h, n, ops[n]);
      if ops[n].Copy? {
        CopiedByte(mem, v, dest, h, m, ops[n].dist);
      } else {
        SpliceAppend(mem, dest, m, ops[n].b);
      }
    }
  }

  // The byte a copy reads is the one the history asks for.
  lemma CopiedByte(mem: seq<byte>, v: View, dest: nat, h: seq<byte>, m: seq<byte>, d: nat)
    requires v.low <= dest && dest + |m| < |mem|
    requires ReadsHistory(mem, v, dest, h, |m|, Copy(d))
    ensures var before := Splice(mem, dest, m);
            var n := |m|;
            var a := Locate(v, dest + n, d);
            && 1 <= d <= |h| + n && a.Some? && a.value < |mem|
            && before[dest + n := before[a.value]] == Splice(mem, dest, m + [(h + m)[|h| + n - d]])
  {
    hide Splice;
    var n := |m|;
    var a := Locate(v, dest + n, d);
    SpliceAt(mem, dest, m);
    SpliceAppend(mem, dest, m, (h + m)[|h| + n - d]);
  }

  // What a failing call leaves of the context: one that switches segments has
  // noted the old prefix as external segment by then.
  function AfterFailure(c: Context, dest: nat): Context
    requires c.prefixSize <= c.prefixEnd
  {
    if c.prefixSize == 0 || c.prefixEnd == dest then c
    else c.(extDict := c.prefixEnd - c.prefixSize, extDictSize := c.prefixSize)
  }

  class StreamDecode {
    var prefixEnd: nat
    var prefixSize: nat
    var externalDict: nat
    var extDictSize: nat

    // LZ4_createStreamDecode, or a zero-initialised context.
    constructor ()
      ensures Value() == RESET
    {
      prefixEnd, prefixSize, externalDict, extDictSize := 0, 0, 0, 0;
    }

    ghost function Value(): Context
      reads this
    {
      Context(prefixEnd, prefixSize, externalDict, extDictSize)
    }

    // LZ4_setStreamDecode.
    method SetStreamDecode(dictionary: nat, dictSize: nat)
      modifies this
      ensures Value() == Context(dictionary + dictSize, dictSize, 0, 0)
    {
      prefixSize := dictSize;
      prefixEnd := dictionary + dictSize;
      externalDict := 0;
      extDictSize := 0;
    }

    // LZ4_decompress_safe_continue.
    method DecompressSafeContinue(mem: array<byte>, payload: seq<byte>, dest: nat, cap: nat) returns (result: int)
      requires Value().Valid(mem.Length) && dest + cap <= mem.Length
      modifies this, mem
      ensures match old(Decompress(Value(), mem[..], payload, dest, cap))
              case Failed => result <= 0 && Value() == old(AfterFailure(Value(), dest))
              case Decoded(n, after, ctx) => result == n && mem[..] == after && Value() == ctx
      ensures KeepsOutside(old(mem[..]), mem[..], dest, cap)
    {
      hide Generic;
      ghost var c := Value();
      if prefixSize == 0 {
        result := DecompressGeneric(mem, payload, dest, cap, View(dest, 0, 0));
        if result <= 0 { return; }
        prefixSize := result;
        prefixEnd := dest + result;
      } else if prefixEnd == dest {
        if prefixSize >= WINDOW - 1 {
          result := DecompressGeneric(mem, payload, dest, cap, View(dest - WINDOW, 0, 0));
        } else {
          result := DecompressGeneric(mem, payload, dest, cap, View(dest - prefixSize, externalDict, extDictSize));
        }
        if result <= 0 { return; }
        prefixSize := prefixSize + result;
        prefixEnd := prefixEnd + result;
      } else {
        extDictSize := prefixSize;
        externalDict := prefixEnd - extDictSize;
        result := DecompressGeneric(mem, payload, dest, cap, View(dest, externalDict, extDictSize));
        if result <= 0 { return; }
        prefixSize := result;
        prefixEnd := dest + result;
      }
      assert Value() == After(c, dest, result);
    }
  }

  // Decoding in two parts is decoding the first, and then the second where the
  // first has stopped.
  lemma {:induction false} ReplayConcat(mem: seq<byte>, v: View, dest: nat, a: seq<Op>, b: seq<Op>)
    requires Fits(v, dest, |a| + |b|, mem)
    ensures var first := Replay(mem, v, dest, a);
            Replay(mem, v, dest, a + b) == if first.None? then None else Replay(first.value, v, dest + |a|, b)
    decreases |b|
  {
    if b == [] {
      assert a + b == a;
    } else {
      var n := |b| - 1;
      assert (a + b)[..|a| + n] == a + b[..n];
      ReplayConcat(mem, v, dest, a, b[..n]);
    }
  }

  // Literals are written as they are.
  lemma {:induction false} ReplayLiterals(mem: seq<byte>, v: View, dest: nat, lits: seq<byte>)
    requires Fits(v, dest, |lits|, mem)
    ensures Replay(mem, v, dest, Literals(lits)) == Some(Splice(mem, dest, lits))
    decreases |lits|
  {
    if lits == [] {
      SpliceNothing(mem, dest);
    } else {
      var n := |lits| - 1;
      ReplayLiterals(mem, v, dest, lits[..n]);
      assert Literals(lits)[..n] == Literals(lits[..n]);
      SpliceAppend(mem, dest, lits[..n], lits[n]);
      assert lits[..n] + [lits[n]] == lits;
    }
  }

  // A byte copied to `at` over distance d is the one its address holds by then:
  // one written since `from`, or one that was there before.
  ghost predicate Copied(mem: seq<byte>, after: seq<byte>, v: View, from: nat, at: nat, d: nat)
    requires v.low <= at < |mem| == |after|
  {
    var a := Locate(v, at, d);
    && a.Some? && a.value < |mem|
    && after[at] == if from <= a.value < at then after[a.value] else mem[a.value]
  }

  // A match of `len` bytes at distance d, written at `op`: where it overlaps its
  // source, it repeats itself.
  ghost predicate Matched(mem: seq<byte>, after: seq<byte>, v: View, op: nat, d: nat, len: nat)
    requires v.low <= op
  {
    && KeepsOutside(mem, after, op, len)
    && forall at :: op <= at < op + len ==> Copied(mem, after, v, op, at, d)
  }

  // A match is copied in full when its first byte can be located, else not.
  lemma {:induction false} ReplayCopies(mem: seq<byte>, v: View, op: nat, d: nat, len: nat)
    requires Fits(v, op, len, mem)
    ensures var r := Replay(mem, v, op, Copies(d, len));
            && (r.Some? <==> len == 0 || Locate(v, op, d).Some?)
            && (r.Some? ==> Matched(mem, r.value, v, op, d, len))
    decreases len
  {
    if len == 0 {
      assert Replay(mem, v, op, Copies(d, 0)) == Some(mem);
    } else {
      var n := len - 1;
      assert Copies(d, len)[..n] == Copies(d, n);
      ReplayCopies(mem, v, op, d, n);
      if Locate(v, op, d).Some? {
        LocateLater(v, op, n, d);
        MatchedStep(mem, Replay(mem, v, op, Copies(d, n)).value, v, op, d, n);
      }
    }
  }

  lemma MatchedStep(mem: seq<byte>, before: seq<byte>, v: View, op: nat, d: nat, n: nat)
    requires Fits(v, op, n + 1, mem) && Matched(mem, before, v, op, d, n) && Locate(v, op + n, d).Some?
    ensures var a := Locate(v, op + n, d).value;
            a < |mem| && Matched(mem, before[op + n := before[a]], v, op, d, n + 1)
  {
    var a := Locate(v, op + n, d).value;
    var after := before[op + n := before[a]];
    assert after[..op] == before[..op] && after[op + n + 1..] == before[op + n..][1..] == mem[op + n..][1..];
    if a < op {
      assert before[..op][a] == mem[..op][a];
    } else if a >= op + n {
      assert before[op + n..][a - op - n] == mem[op + n..][a - op - n];
    }
    forall at | op <= at < op + n + 1
      ensures Copied(mem, after, v, op, at, d)
    {
      if at < op + n {
        assert Copied(mem, before, v, op, at, d);
      }
    }
  }

  // A distance within reach stays so while the output grows.
  lemma LocateLater(v: View, op: nat, k: nat, d: nat)
    requires v.low <= op && Locate(v, op, d).Some? && (v.low < 0 ==> v.extSize == 0)
    ensures Locate(v, op + k, d).Some?
  {
  }

  // A match that stays within the segment being written repeats the bytes `d`
  // positions before.
  lemma MatchRepeats(mem: seq<byte>, after: seq<byte>, v: View, op: nat, d: nat, len: nat)
    requires v.low <= op && Matched(mem, after, v, op, d, len)
    requires 1 <= d <= op && d <= op - v.low
    ensures forall at :: op <= at < op + len ==> after[at] == after[at - d]
  {
    forall at | op <= at < op + len
      ensures after[at] == after[at - d]
    {
      assert Copied(mem, after, v, op, at, d);
      assert Locate(v, at, d) == Some(at - d);
      if at - d < op {
        assert after[..op][at - d] == mem[..op][at - d];
      }
    }
  }

  // What is written before an outcome belongs to it.
  function Resumed(n: nat, r: Option<Written>): Option<Written> {
    match r
    case None => None
    case Some(w) => Some(Written(n + w.n, w.mem))
  }

  // A block that ends with these literals.
  lemma GenericLast(mem: seq<byte>, input: seq<byte>, dest: nat, cap: nat, v: View)
    requires Fits(v, dest, cap, mem) && input != []
    requires ReadLiterals(input).None? || ReadLiterals(input).value.1 == []
    ensures Generic(mem, input, dest, cap, v) ==
            if ReadLiterals(input).None? || |ReadLiterals(input).value.0| > cap then None
            else var lits := ReadLiterals(input).value.0; Some(Written(|lits|, Splice(mem, dest, lits)))
  {
    hide ReadLiterals, Splice;
    if ReadLiterals(input).Some? {
      var lits := ReadLiterals(input).value.0;
      assert Ops(Block([], lits)) == Literals(lits);
      if |lits| <= cap {
        ReplayLiterals(mem, v, dest, lits);
      }
    }
  }

  // A block that goes on: the literals, the match, and the rest of the block
  // where they end.
  lemma GenericSequence(mem: seq<byte>, input: seq<byte>, dest: nat, cap: nat, v: View)
    requires Fits(v, dest, cap, mem) && input != []
    requires ReadLiterals(input).Some? && ReadLiterals(input).value.1 != []
    ensures var literals := ReadLiterals(input).value;
            var found := ReadMatch(input[0], literals.1);
            Generic(mem, input, dest, cap, v) ==
            if found.None? || |literals.0| + found.value.1 > cap then None
            else AfterMatch(mem, literals.0, found.value.0, found.value.1, found.value.2, dest, cap, v)
  {
    hide ReadLiterals, ReadMatch, Replay, Literals, Copies;
    var literals := ReadLiterals(input).value;
    var found := ReadMatch(input[0], literals.1);
    if found.Some? {
      var tail := Parse(found.value.2);
      if tail.Some? {
        var s := Sequence(literals.0, found.value.0, found.value.1);
        var ops := Literals(s.lits) + Copies(s.dist, s.mlen);
        assert Parse(input).value.seqs[1..] == tail.value.seqs;
        assert Ops(Parse(input).value) == ops + Ops(tail.value);
        if |ops| + |Ops(tail.value)| <= cap {
          ReplayConcat(mem, v, dest, ops, Ops(tail.value));
        }
      }
    }
  }

  // The rest of a block once literals and match have been read from it.
  function AfterMatch(mem: seq<byte>, lits: seq<byte>, d: nat, len: nat, tail: seq<byte>,
                      dest: nat, cap: nat, v: View): Option<Written>
    requires Fits(v, dest, cap, mem) && |lits| + len <= cap
  {
    var n := |lits| + len;
    match Replay(mem, v, dest, Literals(lits) + Copies(d, len))
    case None => None
    case Some(after) => Resumed(n, Generic(after, tail, dest + n, cap - n, v))
  }

  // Literals and match, step by step.
  lemma AfterMatchCases(mem: seq<byte>, lits: seq<byte>, d: nat, len: nat, tail: seq<byte>, dest: nat, cap: nat, v: View)
    returns (after: seq<byte>)
    requires Fits(v, dest, cap, mem) && |lits| + len <= cap && len >= 1
    ensures var op := dest + |lits|;
            var r := AfterMatch(mem, lits, d, len, tail, dest, cap, v);
            if Locate(v, op, d).None? then r == None
            else
              && Replay(Splice(mem, dest, lits), v, op, Copies(d, len)) == Some(after)
              && |after| == |mem| && Matched(Splice(mem, dest, lits), after, v, op, d, len)
              && r == Resumed(|lits| + len, Generic(after, tail, op + len, cap - |lits| - len, v))
  {
    hide Replay, Literals, Copies, Splice, Generic, Matched;
    var op := dest + |lits|;
    ReplayConcat(mem, v, dest, Literals(lits), Copies(d, len));
    ReplayLiterals(mem, v, dest, lits);
    ReplayCopies(Splice(mem, dest, lits), v, op, d, len);
    after := mem;
    if Locate(v, op, d).Some? {
      after := Replay(Splice(mem, dest, lits), v, op, Copies(d, len)).value;
    }
  }

  // The bytes of a sequence, followed by the rest of a block: its literals are
  // written first, then its match, and then what the rest writes behind them.
  // A sequence that does not fit, or reaches back too far, makes the block fail.
  lemma DecodesSequence(mem: seq<byte>, s: Sequence, tail: seq<byte>, dest: nat, cap: nat, v: View) returns (after: seq<byte>)
    requires WellFormedSequence(s) && Fits(v, dest, cap, mem)
    ensures var op, n := dest + |s.lits|, |s.lits| + s.mlen;
            var r := Generic(mem, EncodeSequence(s) + tail, dest, cap, v);
            if n > cap || Locate(v, op, s.dist).None? then r == None
            else
              && KeepsOutside(mem, after, dest, n) && after[dest..op] == s.lits
              && (forall at :: op <= at < dest + n ==> Copied(mem, after, v, dest, at, s.dist))
              && (s.dist <= op && s.dist <= op - v.low ==>
                    forall at :: op <= at < dest + n ==> after[at] == after[at - s.dist])
              && r == Resumed(n, Generic(after, tail, dest + n, cap - n, v))
  {
    hide Replay, Splice, Generic, Locate, EncodeSequence, ReadLiterals, ReadMatch, Parse;
    var op := dest + |s.lits|;
    after := mem;
    SequenceIsRead(s, tail);
    GenericSequence(mem, EncodeSequence(s) + tail, dest, cap, v);
    if |s.lits| + s.mlen <= cap {
      after := AfterMatchCases(mem, s.lits, s.dist, s.mlen, tail, dest, cap, v);
      if Locate(v, op, s.dist).Some? {
        MatchBehindLiterals(mem, after, v, dest, s.lits, s.dist, s.mlen);
      }
    }
  }

  // What a match behind literals leaves in memory.
  lemma MatchBehindLiterals(mem: seq<byte>, after: seq<byte>, v: View, dest: nat, lits: seq<byte>, d: nat, len: nat)
    requires v.low <= dest && dest + |lits| + len <= |mem|
    requires Matched(Splice(mem, dest, lits), after, v, dest + |lits|, d, len)
    ensures var op := dest + |lits|;
            && KeepsOutside(mem, after, dest, |lits| + len) && after[dest..op] == lits
            && (forall at :: op <= at < op + len ==> Copied(mem, after, v, dest, at, d))
            && (1 <= d <= op && d <= op - v.low ==> forall at :: op <= at < op + len ==> after[at] == after[at - d])
  {
    hide Splice, Locate;
    var op := dest + |lits|;
    var mid := Splice(mem, dest, lits);
    SpliceAt(mem, dest, lits);
    assert after[..op] == mid[..op];
    assert after[dest..op] == after[..op][dest..] == mid[..op][dest..] == mid[dest..op];
    assert after[..dest] == after[..op][..dest] == mid[..op][..dest] == mem[..dest];
    assert after[op + len..] == mid[op + len..] == mem[op + len..];
    forall at | op <= at < op + len
      ensures Copied(mem, after, v, dest, at, d)
    {
      assert Copied(mid, after, v, op, at, d);
      var a := Locate(v, at, d).value;
      if a < op {
        assert after[..op][a] == mid[..op][a];
      }
    }
    if 1 <= d <= op && d <= op - v.low {
      MatchRepeats(mid, after, v, op, d, len);
    }
  }

  lemma SequenceNonempty(s: Sequence)
    requires WellFormedSequence(s)
    ensures EncodeSequence(s) != []
  {
  }

  // Its bytes are read back as literals and match.
  lemma SequenceIsRead(s: Sequence, tail: seq<byte>)
    requires WellFormedSequence(s)
    ensures var input := EncodeSequence(s) + tail;
            && input != [] && ReadLiterals(input).Some?
            && var literals := ReadLiterals(input).value;
            && literals.0 == s.lits && literals.1 != []
            && ReadMatch(input[0], literals.1) == Some((s.dist, s.mlen, tail))
  {
    hide Parse, ReadLiterals, ReadMatch, EncodeSequence;
    var input := EncodeSequence(s) + tail;
    SplitSequence(s, tail);
    SequenceNonempty(s);
    SequenceParts(input, s, tail);
  }

  // The same for the literals at the end of a block.
  lemma DecodesLast(mem: seq<byte>, last: seq<byte>, dest: nat, cap: nat, v: View)
    requires Fits(v, dest, cap, mem)
    ensures Generic(mem, EncodeLast(last), dest, cap, v) ==
            if |last| > cap then None else Some(Written(|last|, Splice(mem, dest, last)))
  {
    hide Replay, Splice, ReadLiterals;
    var input := EncodeLast(last);
    assert input[1..] == Extension(|last|) + (last + []);
    ReadLiteralsRoundTrip(input, last, []);
    GenericLast(mem, input, dest, cap, v);
  }

  // Bytes outside a part that is unchanged in two steps.
  lemma KeepsOutsideTwice(mem: seq<byte>, mid: seq<byte>, after: seq<byte>, dest: nat, cap: nat, at: nat, n: nat)
    requires KeepsOutside(mem, mid, dest, cap) && KeepsOutside(mid, after, at, n)
    requires dest <= at && at + n <= dest + cap
    ensures KeepsOutside(mem, after, dest, cap)
  {
    assert after[..dest] == after[..at][..dest] == mid[..at][..dest] == mid[..dest];
    assert after[dest + cap..] == after[at + n..][dest + cap - at - n..] == mid[at + n..][dest + cap - at - n..]
        == mid[dest + cap..];
  }

  // read_variable_length: a length extension at payload[ip..].
  method ReadVariableLength(payload: seq<byte>, ip: nat, sofar: nat) returns (ok: bool, length: nat, next: nat)
    requires ip <= |payload|
    ensures match ReadRun(sofar, payload[ip..])
            case None => !ok
            case Some(r) => ok && ip < next <= |payload| && length == r.0 && payload[next..] == r.1
  {
    length, next := sofar, ip;
    while next < |payload|
      invariant ip <= next <= |payload|
      invariant ReadRun(sofar, payload[ip..]) == ReadRun(length, payload[next..])
      decreases |payload| - next
    {
      var s := payload[next];
      assert payload[next..][1..] == payload[next + 1..];
      next := next + 1;
      length := length + s;
      if s != 255 {
        return true, length, next;
      }
    }
    ok := false;
  }

  // Literals from payload[ip..] on: what is left of the token is in `token`.
  method ReadLiteralLength(payload: seq<byte>, ip: nat) returns (ok: bool, length: nat, next: nat)
    requires ip < |payload|
    ensures match ReadLiterals(payload[ip..])
            case None => !ok || next + length > |payload|
            case Some(r) =>
              && ok && ip < next && next + length <= |payload|
              && payload[next..next + length] == r.0 && payload[next + length..] == r.1
  {
    hide ReadRun;
    ok, length, next := true, payload[ip] / 16, ip + 1;
    assert payload[ip..][1..] == payload[next..];
    if length == 15 {
      ok, length, next := ReadVariableLength(payload, next, length);
    }
    if ok && next + length <= |payload| {
      assert payload[next..][..length] == payload[next..next + length];
      assert payload[next..][length..] == payload[next + length..];
    }
  }

  // Distance and length of a match at payload[ip..].
  method ReadMatchAt(payload: seq<byte>, token: byte, ip: nat) returns (ok: bool, offset: nat, length: nat, next: nat)
    requires ip <= |payload|
    ensures match ReadMatch(token, payload[ip..])
            case None => !ok
            case Some(r) => ok && ip < next <= |payload| && offset == r.0 && length == r.1 && payload[next..] == r.2
    ensures ok ==> length >= MIN_MATCH
  {
    hide ReadRun;
    ok, offset, length, next := false, 0, 0, ip;
    if ip + 2 > |payload| {
      return;
    }
    Positional(payload[ip..][..2]);
    var lo: int, hi: int := payload[ip], payload[ip + 1];
    offset := lo + 256 * hi;
    next := ip + 2;
    assert payload[ip..][2..] == payload[next..];
    length := token % 16;
    ok := true;
    if length == 15 {
      ok, length, next := ReadVariableLength(payload, next, length);
    }
    length := length + 4;
  }

  // Copy a match byte by byte, which repeats it where it overlaps itself.
  method CopyMatch(mem: array<byte>, v: View, op: nat, offset: nat, length: nat)
    requires Fits(v, op, length, mem[..]) && Locate(v, op, offset).Some?
    modifies mem
    ensures Replay(old(mem[..]), v, op, Copies(offset, length)) == Some(mem[..])
    ensures KeepsOutside(old(mem[..]), mem[..], op, length)
  {
    hide Replay, Locate, KeepsOutside;
    ghost var mem0 := mem[..];
    ghost var ops := Copies(offset, length);
    var i := 0;
    ReplayNothing(mem0, v, op);
    assert ops[..0] == [];
    while i < length
      invariant 0 <= i <= length
      invariant Replay(mem0, v, op, ops[..i]) == Some(mem[..])
    {
      ReplayStep(mem0, v, op, ops, i);
      LocateLater(v, op, i, offset);
      mem[op + i] := mem[Locate(v, op + i, offset).value];
      i := i + 1;
    }
    assert ops[..i] == ops;
    ReplayKeepsOutside(mem0, v, op, ops, length);
  }

  // LZ4_decompress_generic: number of bytes written, or a negative result.
  method DecompressGeneric(mem: array<byte>, payload: seq<byte>, dest: nat, cap: nat, v: View) returns (result: int)
    requires dest + cap <= mem.Length && Fits(v, dest, cap, mem[..])
    modifies mem
    ensures match old(Generic(mem[..], payload, dest, cap, v))
            case None => result < 0
            case Some(w) => result == w.n && mem[..] == w.mem
    ensures KeepsOutside(old(mem[..]), mem[..], dest, cap)
  {
    hide Generic, Replay, Splice, Literals, Copies, KeepsOutside, ReadLiterals, ReadMatch, AfterMatch, Matched;
    ghost var mem0 := mem[..];
    KeepsAll(mem0, dest, cap);
    EmptyPayload(mem0, dest, cap, v);
    if |payload| == 0 {
      return -1;
    }
    var ip, op, oend := 0, dest, dest + cap;
    assert payload[0..] == payload;
    while true
      invariant ip < |payload| && dest <= op <= oend
      invariant Generic(mem0, payload, dest, cap, v) ==
                Resumed(op - dest, Generic(mem[..], payload[ip..], op, oend - op, v))
      invariant KeepsOutside(mem0, mem[..], dest, cap)
      decreases |payload| - ip
    {
      ghost var before, input, dest1 := mem[..], payload[ip..], op;
      if ReadLiterals(input).None? || ReadLiterals(input).value.1 == [] {
        GenericLast(before, input, op, oend - op, v);
      } else {
        GenericSequence(before, input, op, oend - op, v);
      }
      var token := payload[ip];
      var ok, length, next := ReadLiteralLength(payload, ip);
      if !ok || next + length > |payload| || op + length > oend {
        return -1;
      }
      var lits := payload[next..next + length];
      CopyIn(mem, op, lits);
      SpliceKeeps(before, op, lits);
      KeepsOutsideTwice(mem0, before, mem[..], dest, cap, op, length);
      ip, op := next + length, op + length;
      if ip == |payload| {
        return op - dest;
      }
      var offset;
      ok, offset, length, next := ReadMatchAt(payload, token, ip);
      if !ok || op + length > oend {
        return -1;
      }
      ghost var after := AfterMatchCases(before, lits, offset, length, payload[next..], dest1, oend - dest1, v);
      if Locate(v, op, offset).None? {
        return -1;
      }
      ghost var mid := mem[..];
      CopyMatch(mem, v, op, offset, length);
      KeepsOutsideTwice(mem0, mid, mem[..], dest, cap, op, length);
      ip, op := next, op + length;
      if ip == |payload| {
        EmptyPayload(mem[..], op, oend - op, v);
        return -1;
      }
    }
  }

  lemma EmptyPayload(mem: seq<byte>, dest: nat, cap: nat, v: View)
    requires Fits(v, dest, cap, mem)
    ensures Generic(mem, [], dest, cap, v) == None
  {
  }

  lemma KeepsAll(mem: seq<byte>, at: nat, n: nat)
    requires at + n <= |mem|
    ensures KeepsOutside(mem, mem, at, n)
  {
  }

  lemma SpliceKeeps(mem: seq<byte>, at: nat, data: seq<byte>)
    requires at + |data| <= |mem|
    ensures KeepsOutside(mem, Splice(mem, at, data), at, |data|)
  {
  }
}
