// The three file comparisons with which the programs check their own work.
module Comparison {
  import opened Bytes
  import opened Files

  const CHUNK: nat := 65536
  const SMALL_CHUNK: nat := 4096

  // memcmp.
  function MemCmp(a: seq<byte>, b: seq<byte>): (r: int)
    requires |a| == |b|
    ensures r == 0 <==> a == b
  {
    if a == [] then 0
    else if a[0] != b[0] then
      var x: int, y: int := a[0], b[0];
      x - y
    else
      assert a == [a[0]] + a[1..] && b == [b[0]] + b[1..];
      MemCmp(a[1..], b[1..])
  }

  // How long the two sequences agree.
  function FirstDiff(a: seq<byte>, b: seq<byte>): nat {
    if a == [] || b == [] || a[0] != b[0] then 0 else 1 + FirstDiff(a[1..], b[1..])
  }

  lemma {:induction false} FirstDiffIsFirst(a: seq<byte>, b: seq<byte>)
    ensures var k := FirstDiff(a, b);
            && k <= |a| && k <= |b| && a[..k] == b[..k]
            && (k < |a| && k < |b| ==> a[k] != b[k])
    decreases |a|
  {
    if a == [] || b == [] || a[0] != b[0] {
      assert FirstDiff(a, b) == 0;
    } else {
      var k := FirstDiff(a, b);
      FirstDiffIsFirst(a[1..], b[1..]);
      assert a[..k] == [a[0]] + a[1..][..k - 1];
      assert b[..k] == [b[0]] + b[1..][..k - 1];
    }
  }

  lemma {:induction false} FirstDiffUnique(a: seq<byte>, b: seq<byte>, k: nat)
    requires k < |a| && k < |b| && a[..k] == b[..k] && a[k] != b[k]
    ensures FirstDiff(a, b) == k
    decreases k
  {
    if k == 0 {
      assert FirstDiff(a, b) == 0;
    } else {
      assert a[0] == a[..k][0] == b[..k][0] == b[0];
      assert a[1..][..k - 1] == a[..k][1..] && b[1..][..k - 1] == b[..k][1..];
      FirstDiffUnique(a[1..], b[1..], k - 1);
    }
  }

  // compare of the block and ring buffer programs: 0 exactly when what is left
  // of the two files is the same.
  method Compare(f0: File, f1: File) returns (result: int)
    requires f0 != f1
    modifies f0`pos, f1`pos
    ensures result == 0 <==> old(f0.Rest()) == old(f1.Rest())
  {
    hide File.Rest;
    result := 0;
    while 0 == result
      invariant f0.data == old(f0.data) && f1.data == old(f1.data)
      invariant result == 0 ==> (old(f0.Rest()) == old(f1.Rest()) <==> f0.Rest() == f1.Rest())
      invariant result != 0 ==> old(f0.Rest()) != old(f1.Rest())
      decreases result == 0, |f0.Rest()|
    {
      ghost var rest0, rest1 := f0.Rest(), f1.Rest();
      var b0 := f0.ReadBin(CHUNK);
      var b1 := f1.ReadBin(CHUNK);
      assert rest0 == b0 + f0.Rest() && rest1 == b1 + f1.Rest();
      result := |b0| - |b1|;
      if 0 == |b0| || 0 == |b1| {
        break;
      }
      if 0 == result {
        result := MemCmp(b0, b1);
        assert result != 0 ==> rest0[..|b0|] != rest1[..|b0|];
      }
    }
  }

  // Number of bytes a reader gets in the chunk that contains position k.
  function ChunkLength(len: nat, k: nat): nat
    requires k <= len
  {
    Min(CHUNK, len - k / CHUNK * CHUNK)
  }

  // What the position-reporting comparison returns.
  function Reported(a: seq<byte>, b: seq<byte>): nat {
    if a == b then 0
    else
      var k := FirstDiff(a, b);
      FirstDiffIsFirst(a, b);
      1 + if ChunkLength(|a|, k) == ChunkLength(|b|, k) then k else Min(|a|, |b|)
  }

  // For different files the reported position is the first difference exactly
  // when the chunk holding it is read in the same length from both files, or
  // one file is a prefix of the other. Otherwise the end of the shorter file
  // is reported although a byte before it differs.
  lemma ReportedIsFirstDifference(a: seq<byte>, b: seq<byte>)
    requires a != b
    ensures Reported(a, b) == 1 + FirstDiff(a, b) <==>
            var k := FirstDiff(a, b);
            || |a| == |b|
            || (k / CHUNK + 1) * CHUNK <= Min(|a|, |b|)
            || k == Min(|a|, |b|)
  {
    FirstDiffIsFirst(a, b);
  }

  // A three-byte and a two-byte file that differ in their first byte are
  // reported as differing in the third.
  lemma ReportedCanBeLate()
    ensures FirstDiff([1, 2, 3], [4, 2]) == 0 && Reported([1, 2, 3], [4, 2]) == 3
  {
    var a: seq<byte>, b: seq<byte> := [1, 2, 3], [4, 2];
    assert a[0] != b[0];
    assert FirstDiff(a, b) == 0;
  }

  // Agreeing prefixes shift the comparison.
  lemma {:induction false} FirstDiffShift(p: seq<byte>, a: seq<byte>, b: seq<byte>)
    ensures FirstDiff(p + a, p + b) == |p| + FirstDiff(a, b)
    decreases |p|
  {
    if p == [] {
      assert p + a == a && p + b == b;
    } else {
      assert (p + a)[1..] == p[1..] + a && (p + b)[1..] == p[1..] + b;
      FirstDiffShift(p[1..], a, b);
    }
  }

  // Whole chunks that agree are simply counted.
  lemma ReportedShift(p: seq<byte>, a: seq<byte>, b: seq<byte>)
    requires |p| % CHUNK == 0 && a != b
    ensures p + a != p + b
    ensures Reported(p + a, p + b) == |p| + Reported(a, b)
  {
    assert a == (p + a)[|p|..] && b == (p + b)[|p|..];
    FirstDiffShift(p, a, b);
    var k := FirstDiff(a, b);
    FirstDiffIsFirst(a, b);
    assert (|p| + k) / CHUNK == |p| / CHUNK + k / CHUNK;
  }

  // The scan for the differing byte of two chunks.
  method FirstMismatch(b0: seq<byte>, b1: seq<byte>) returns (errorPos: nat)
    requires |b0| == |b1| && b0 != b1
    ensures errorPos < |b0| && b0[..errorPos] == b1[..errorPos] && b0[errorPos] != b1[errorPos]
  {
    errorPos := 0;
    while errorPos < |b0| && b0[errorPos] == b1[errorPos]
      invariant errorPos <= |b0| && b0[..errorPos] == b1[..errorPos]
    {
      assert b0[..errorPos + 1] == b0[..errorPos] + [b0[errorPos]];
      assert b1[..errorPos + 1] == b1[..errorPos] + [b1[errorPos]];
      errorPos := errorPos + 1;
    }
    assert b0[..|b0|] == b0 && b1[..|b1|] == b1;
  }

  // compare of the HC program: 0 when the rests are identical, else one more
  // than the position reported.
  method CompareReporting(f0: File, f1: File) returns (result: nat)
    requires f0 != f1
    modifies f0`pos, f1`pos
    ensures result == Reported(old(f0.Rest()), old(f1.Rest()))
  {
    hide Reported, MemCmp, File.Rest;
    result := 1;
    while true
      invariant f0.data == old(f0.data) && f1.data == old(f1.data)
      invariant f0.Rest() == f1.Rest() <==> old(f0.Rest()) == old(f1.Rest())
      invariant f0.Rest() != f1.Rest() ==>
                  Reported(old(f0.Rest()), old(f1.Rest())) == result - 1 + Reported(f0.Rest(), f1.Rest())
      decreases |f0.Rest()|
    {
      ghost var rest0, rest1 := f0.Rest(), f1.Rest();
      var b0 := f0.ReadBin(CHUNK);
      var b1 := f1.ReadBin(CHUNK);
      assert rest0 == b0 + f0.Rest() && rest1 == b1 + f1.Rest();
      if |b0| == 0 && |b1| == 0 {
        ReportedSame(old(f0.Rest()));
        return 0;
      }
      if |b0| != |b1| {
        var smallest := |b0|;
        if |b1| < |b0| {
          smallest := |b1|;
        }
        result := result + smallest;
        ReportedShort(rest0, rest1);
        return;
      }
      if MemCmp(b0, b1) != 0 {
        var errorPos := FirstMismatch(b0, b1);
        assert rest0[..errorPos] == b0[..errorPos] && rest1[..errorPos] == b1[..errorPos];
        result := result + errorPos;
        ReportedInChunk(rest0, rest1, errorPos);
        return;
      }
      result := result + CHUNK;
      if f0.Rest() != f1.Rest() {
        ReportedShift(b0, f0.Rest(), f1.Rest());
      }
    }
  }

  lemma ReportedSame(a: seq<byte>)
    ensures Reported(a, a) == 0
  {
  }

  // The first chunks have different lengths.
  lemma ReportedShort(a: seq<byte>, b: seq<byte>)
    requires Min(CHUNK, |a|) != Min(CHUNK, |b|)
    ensures Reported(a, b) == 1 + Min(|a|, |b|)
  {
    FirstDiffIsFirst(a, b);
  }

  // The first chunks have the same length and differ first at k.
  lemma ReportedInChunk(a: seq<byte>, b: seq<byte>, k: nat)
    requires Min(CHUNK, |a|) == Min(CHUNK, |b|) && k < Min(CHUNK, |a|)
    requires a[..k] == b[..k] && a[k] != b[k]
    ensures Reported(a, b) == 1 + k
  {
    FirstDiffUnique(a, b, k);
  }

  // compare of the random access program: 0 exactly when the next `length`
  // bytes, or as many as are left, are the same in both files.
  method CompareLength(fp0: File, fp1: File, length: nat) returns (result: int)
    requires fp0 != fp1
    modifies fp0`pos, fp1`pos
    ensures result == 0 <==> Next(old(fp0.Rest()), length) == Next(old(fp1.Rest()), length)
  {
    hide MemCmp, File.Rest;
    result := 0;
    var left := length;
    while 0 == result
      invariant fp0.data == old(fp0.data) && fp1.data == old(fp1.data)
      invariant result == 0 ==> left >= 0
      invariant result == 0 ==>
                  (Next(old(fp0.Rest()), length) == Next(old(fp1.Rest()), length) <==>
                   Next(fp0.Rest(), left) == Next(fp1.Rest(), left))
      invariant result != 0 ==> Next(old(fp0.Rest()), length) != Next(old(fp1.Rest()), length)
      decreases result == 0, left
    {
      ghost var rest0, rest1 := fp0.Rest(), fp1.Rest();
      var b0 := fp0.ReadBin(Min(left, SMALL_CHUNK));
      var b1 := fp1.ReadBin(Min(left, SMALL_CHUNK));
      NextSplit(rest0, b0, fp0.Rest(), left);
      NextSplit(rest1, b1, fp1.Rest(), left);
      NextDiffers(b0, b1, Next(fp0.Rest(), left - |b0|), Next(fp1.Rest(), left - |b1|));
      assert |b0| < |b1| ==> |Next(rest0, left)| < |Next(rest1, left)|;
      assert |b1| < |b0| ==> |Next(rest1, left)| < |Next(rest0, left)|;
      result := |b0| - |b1|;
      if 0 == |b0| || 0 == |b1| {
        break;
      }
      if 0 == result {
        result := MemCmp(b0, b1);
      }
      left := left - |b0|;
    }
  }

  lemma NextDiffers(a: seq<byte>, b: seq<byte>, a1: seq<byte>, b1: seq<byte>)
    ensures |a| == |b| ==> (a + a1 == b + b1 <==> a == b && a1 == b1)
  {
    if |a| == |b| && a + a1 == b + b1 {
      assert a == (a + a1)[..|a|] && b == (b + b1)[..|b|];
      assert a1 == (a + a1)[|a|..] && b1 == (b + b1)[|b|..];
    }
  }

  // The next `length` bytes, or what is left.
  function Next(s: seq<byte>, length: nat): seq<byte> {
    s[..Min(length, |s|)]
  }

  lemma NextSplit(s: seq<byte>, head: seq<byte>, rest: seq<byte>, length: nat)
    requires |head| <= length && s == head + rest
    ensures Next(s, length) == head + Next(rest, length - |head|)
  {
  }
}
