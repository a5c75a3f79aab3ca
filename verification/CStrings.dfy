/** C strings inside blocks of memory, and the library routines the bridge
    calls on them.  A block is a `seq<char>` (or an `array<char>` when it is
    written in place); every routine also has a functional form, in which an
    access outside the block is `None`. */
module CStrings {

  datatype Option<+T> = None | Some(value: T)

  const NUL := '\0'

  predicate NulFree(s: string) {
    forall i :: 0 <= i < |s| ==> s[i] != NUL
  }

  /** The characters of a C string, without its terminator. */
  type CString = s: string | NulFree(s) witness ""

  function Min(a: nat, b: nat): nat { if a < b then a else b }

  /** The longest NUL-free prefix: what a block reads as, as a C string. */
  function CStr(block: string): (r: CString)
    ensures r <= block
    ensures |r| < |block| ==> block[|r|] == NUL
  {
    if block == "" || block[0] == NUL then "" else [block[0]] + CStr(block[1..])
  }

  /** The contract of CStr has only one solution. */
  lemma {:induction false} CStrUnique(block: string, r: CString)
    requires r <= block
    requires |r| < |block| ==> block[|r|] == NUL
    ensures CStr(block) == r
  {
    var c := CStr(block);
    assert c == block[..|c|] && r == block[..|r|];
    assert |c| == |r|;
  }

  lemma CStrConcat(a: string, b: string)
    ensures CStr(a + b) == if NulFree(a) then a + CStr(b) else CStr(a)
  {
    if NulFree(a) {
      CStrUnique(a + b, a + CStr(b));
    } else {
      CStrUnique(a + b, CStr(a));
    }
  }

  function Flatten(chunks: seq<string>): string {
    if chunks == [] then "" else Flatten(chunks[..|chunks| - 1]) + chunks[|chunks| - 1]
  }

  // ----- strncat

  /** `strncat(block + at, src, n)`: `src` is the memory read, of which at most
      `n` characters, and none from the first NUL on, are copied. */
  function Strncat(block: string, at: nat, src: string, n: nat): (r: Option<string>)
    requires at <= |block|
    ensures r.Some? ==> |r.value| == |block|
  {
    var end := at + |CStr(block[at..])|;
    var k := Min(n, |CStr(src)|);
    if end + k < |block|
    then Some(block[..end] + src[..k] + [NUL] + block[end + k + 1..])
    else None
  }

  /** Appending is concatenation of C strings, cut to `n` characters. */
  lemma StrncatAppends(block: string, src: string, n: nat)
    requires Strncat(block, 0, src, n).Some?
    ensures CStr(Strncat(block, 0, src, n).value) == CStr(block) + CStr(src)[..Min(n, |CStr(src)|)]
  {
    var s, k := CStr(block), Min(n, |CStr(src)|);
    assert block[0..] == block && block[..|s|] == s;
    assert src[..k] == CStr(src)[..k];
    assert Strncat(block, 0, src, n).value == s + CStr(src)[..k] + [NUL] + block[|s| + k + 1..];
    ReadsBeforeNul(s, CStr(src)[..k], block[|s| + k + 1..]);
  }

  lemma ReadsBeforeNul(a: CString, b: CString, rest: string)
    ensures CStr(a + b + [NUL] + rest) == a + b
  {
    CStrUnique(a + b + [NUL] + rest, a + b);
  }

  /** `strlen(block + at)`, as the index of the terminator. */
  method FindTerminator(block: array<char>, at: nat) returns (end: nat)
    requires at <= block.Length && at + |CStr(block[at..])| < block.Length
    ensures end == at + |CStr(block[at..])|
  {
    ghost var s := CStr(block[at..]);
    assert forall i :: 0 <= i < |s| ==> s[i] == block[at..][i];
    end := at;
    while block[end] != NUL
      invariant at <= end <= at + |s|
      decreases at + |s| - end
    {
      end := end + 1;
    }
  }

  /** Copies up to `n` characters of `src`, none from its first NUL on, and
      terminates them. */
  method CopyAndTerminate(block: array<char>, end: nat, src: string, n: nat)
    requires end + Min(n, |CStr(src)|) < block.Length
    modifies block
    ensures var k := Min(n, |CStr(src)|);
      block[..] == old(block[..end]) + src[..k] + [NUL] + old(block[end + k + 1..])
  {
    ghost var s := CStr(src);
    ghost var k := Min(n, |s|);
    ghost var was := block[..];
    ghost var want := was[..end] + src[..k] + [NUL] + was[end + k + 1..];
    assert forall j :: 0 <= j < |s| ==> s[j] == src[j];
    var i := 0;
    while i < n && i < |src| && src[i] != NUL
      invariant i <= k
      invariant forall j :: 0 <= j < end + i ==> block[j] == want[j]
      invariant forall j :: end + i <= j < |was| ==> block[j] == was[j]
    {
      assert want[end + i] == src[i];
      block[end + i] := src[i];
      i := i + 1;
    }
    assert i == k;
    block[end + i] := NUL;
    assert forall j :: end + k < j < |was| ==> want[j] == was[j];
    assert block[..] == want;
  }

  /** strncat in place: find the terminator, copy, terminate. */
  method StrncatAt(block: array<char>, at: nat, src: string, n: nat)
    requires at <= block.Length
    requires Strncat(block[..], at, src, n).Some?
    modifies block
    ensures block[..] == Strncat(old(block[..]), at, src, n).value
  {
    assert block[..][at..] == block[at..];
    var end := FindTerminator(block, at);
    CopyAndTerminate(block, end, src, n);
  }

  /** The C string that a terminated block holds. */
  method ReadString(block: array<char>) returns (s: CString)
    requires |CStr(block[..])| < block.Length
    ensures s == CStr(block[..])
  {
    assert block[0..] == block[..];
    var end := FindTerminator(block, 0);
    s := block[..end];
  }

  // ----- strncpy

  /** `strncpy(block, src, n)`: copies, pads with NULs up to `n`, and writes no
      terminator when `src` has `n` or more characters. */
  function Strncpy(block: string, src: CString, n: nat): (r: string)
    requires n <= |block|
    ensures |r| == |block|
  {
    var k := Min(n, |src|);
    src[..k] + seq(n - k, _ => NUL) + block[n..]
  }

  method StrncpyInto(block: array<char>, src: CString, n: nat)
    requires n <= block.Length
    modifies block
    ensures block[..] == Strncpy(old(block[..]), src, n)
  {
    ghost var want := Strncpy(block[..], src, n);
    for i := 0 to n
      invariant block[..i] == want[..i]
      invariant block[n..] == want[n..]
    {
      block[i] := if i < |src| then src[i] else NUL;
      assert block[..i + 1] == block[..i] + [block[i]];
    }
    assert block[..] == block[..n] + block[n..];
  }
}
