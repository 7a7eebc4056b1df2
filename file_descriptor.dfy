/** The line reader and the write retry loop of the descriptor helpers. The
    descriptor is modelled by what it delivers: for reads, the bytes still to
    come before end of stream; for writes, how many bytes each successive
    write call accepts. */
module FileDescriptor {
  import opened Text

  const Newline: byte := 10
  const Nul: byte := 0

  predicate NoNewline(s: seq<byte>)
  {
    forall j :: 0 <= j < |s| ==> s[j] != Newline
  }

  // ---------------------------------------------------------------------
  // ReadLine

  /** The bytes ReadLine takes from the stream when at most `limit` fit: up
      to and including the first newline, up to end of stream, or `limit`. */
  function Taken(input: seq<byte>, limit: nat): (k: nat)
    ensures k <= limit && k <= |input|
  {
    if limit == 0 || input == [] then 0
    else if input[0] == Newline then 1
    else 1 + Taken(input[1..], limit - 1)
  }

  /** What ReadLine returns for a buffer of `bufSize` bytes: 0 when the
      stream ends before any byte; the bytes stored when the line ends with
      a newline; one more than the bytes stored when the stream ends after
      some bytes; `bufSize` when the buffer fills. */
  function LineReturn(input: seq<byte>, bufSize: nat): nat
    requires bufSize >= 1
  {
    var k := Taken(input, bufSize - 1);
    if k == 0 && bufSize > 1 then 0
    else if k > 0 && input[k - 1] == Newline then k
    else if k < bufSize - 1 then k + 1
    else bufSize
  }

  /** Taking `p` bytes that hold no newline leaves the rest to be taken from
      what follows them. */
  lemma {:induction false} TakenPrefix(input: seq<byte>, limit: nat, p: nat)
    requires p <= limit && p <= |input| && NoNewline(input[..p])
    ensures Taken(input, limit) == p + Taken(input[p..], limit - p)
    decreases p
  {
    if p > 0 {
      assert input[0] == input[..p][0];
      var t := input[1..][..p - 1];
      assert NoNewline(t) by {
        forall j | 0 <= j < p - 1 ensures t[j] != Newline {
          assert t[j] == input[..p][j + 1];
        }
      }
      TakenPrefix(input[1..], limit - 1, p - 1);
      assert input[1..][p - 1..] == input[p..];
    }
  }

  /** The bytes taken hold no newline, except perhaps the last; reading
      stops at the first newline that fits. */
  lemma {:induction false} TakenStopsAtNewline(input: seq<byte>, limit: nat)
    ensures var k := Taken(input, limit); k == 0 || NoNewline(input[..k - 1])
    ensures var k := Taken(input, limit);
      k < limit && k < |input| ==> k > 0 && input[k - 1] == Newline
    decreases limit
  {
    var k := Taken(input, limit);
    if limit > 0 && input != [] && input[0] != Newline {
      TakenStopsAtNewline(input[1..], limit - 1);
      var k' := Taken(input[1..], limit - 1);
      assert k == 1 + k';
      if k' > 0 {
        var t, t' := input[..k - 1], input[1..][..k' - 1];
        forall j | 0 <= j < k - 1 ensures t[j] != Newline {
          if j > 0 {
            assert t[j] == t'[j - 1];
          }
        }
      }
    }
  }

  /** The four results of ReadLine, stated from the input: end of stream at
      once; a newline within the first `bufSize - 1` bytes; end of stream
      after `k` bytes with no newline; a full buffer. */
  lemma LineReturnCases(input: seq<byte>, bufSize: nat)
    requires bufSize >= 1
    ensures LineReturn(input, bufSize) == 0 <==> bufSize > 1 && input == []
    ensures var k := Taken(input, bufSize - 1);
      k > 0 && input[k - 1] == Newline ==> LineReturn(input, bufSize) == k
    ensures var k := Taken(input, bufSize - 1);
      1 <= k == |input| < bufSize - 1 && input[k - 1] != Newline ==> LineReturn(input, bufSize) == k + 1
    ensures NoNewline(input[..Min(|input|, bufSize - 1)]) && |input| >= bufSize - 1 ==>
      Taken(input, bufSize - 1) == bufSize - 1 && LineReturn(input, bufSize) == bufSize
    ensures LineReturn(input, bufSize) <= bufSize
  {
    var k := Taken(input, bufSize - 1);
    if bufSize > 1 && input != [] {
      assert k >= 1;
    }
    var m := Min(|input|, bufSize - 1);
    if NoNewline(input[..m]) && |input| >= bufSize - 1 {
      TakenPrefix(input, bufSize - 1, bufSize - 1);
      if k > 0 {
        assert input[k - 1] == input[..m][k - 1];
      }
    }
  }

  function Min(a: nat, b: nat): nat { if a <= b then a else b }

  /** Reads a line into `buf`, one byte per read call. On success the bytes
      read are followed by a NUL; when the stream is already at its end, 0
      is returned and the buffer is left alone. `consumed` is how many bytes
      were taken from the stream. */
  method ReadLine(input: seq<byte>, buf: array<byte>, bufSize: nat) returns (n: nat, consumed: nat)
    requires 1 <= bufSize <= buf.Length
    modifies buf
    ensures consumed == Taken(input, bufSize - 1)
    ensures n == LineReturn(input, bufSize)
    ensures n == 0 ==> buf[..] == old(buf[..])
    ensures n != 0 ==> buf[..consumed] == input[..consumed] && buf[consumed] == Nul &&
                       buf[consumed + 1..] == old(buf[consumed + 1..])
  {
    var pos := 0;
    n := 1;
    while n < bufSize
      invariant 1 <= n <= bufSize && pos == n - 1 && pos <= |input|
      invariant NoNewline(input[..pos])
      invariant buf[..pos] == input[..pos] && buf[pos..] == old(buf[pos..])
    {
      if pos < |input| {
        var c := input[pos];
        buf[pos] := c;
        pos := pos + 1;
        if c == Newline {
          break;
        }
      } else {
        if n == 1 {
          TakenPrefix(input, bufSize - 1, pos);
          return 0, 0;
        }
        break;
      }
      n := n + 1;
    }
    buf[pos] := Nul;
    consumed := pos;
    ReadLineResult(input, bufSize, n, pos);
  }

  /** The loop's three exits agree with the specification functions. */
  lemma ReadLineResult(input: seq<byte>, bufSize: nat, n: nat, pos: nat)
    requires 1 <= n <= bufSize && pos <= |input| && 1 <= bufSize
    requires
      (pos == n < bufSize && pos >= 1 && NoNewline(input[..pos - 1]) && input[pos - 1] == Newline) ||
      (pos == n - 1 && pos == |input| && n > 1 && NoNewline(input[..pos])) ||
      (pos == n - 1 && n == bufSize && NoNewline(input[..pos]))
    ensures pos == Taken(input, bufSize - 1)
    ensures n == LineReturn(input, bufSize)
  {
    if pos == n < bufSize && pos >= 1 && NoNewline(input[..pos - 1]) && input[pos - 1] == Newline {
      TakenPrefix(input, bufSize - 1, pos - 1);
      assert input[pos - 1..][0] == Newline;
    } else {
      TakenPrefix(input, bufSize - 1, pos);
    }
  }

  // ---------------------------------------------------------------------
  // WriteLine

  /** What one write call takes of the `left` bytes it is offered when the
      descriptor reports `granted`: a result of 0 or less is an interrupted
      call that took nothing. */
  function Accepted(granted: int, left: nat): (a: nat)
    ensures a <= left
    ensures granted > 0 && left > 0 ==> a > 0
  {
    if granted <= 0 then 0 else if granted > left then left else granted
  }

  /** Bytes still unwritten after the given write results. */
  function Remaining(grants: seq<int>, left: nat): (r: nat)
    ensures r <= left
  {
    if grants == [] || left == 0 then left
    else Remaining(grants[1..], left - Accepted(grants[0], left))
  }

  function Flatten(chunks: seq<seq<byte>>): seq<byte>
  {
    if chunks == [] then [] else Flatten(chunks[..|chunks| - 1]) + chunks[|chunks| - 1]
  }

  /** Joining one more piece in front. */
  lemma {:induction false} FlattenCons(c: seq<byte>, rest: seq<seq<byte>>)
    ensures Flatten([c] + rest) == c + Flatten(rest)
    decreases |rest|
  {
    if rest == [] {
      assert [c] + rest == [c];
      assert Flatten([c][..0]) == [];
    } else {
      var init := rest[..|rest| - 1];
      assert ([c] + rest)[..|[c] + rest| - 1] == [c] + init;
      FlattenCons(c, init);
    }
  }

  /** The pieces of `data` the successive write calls accept, one per call
      made: call i takes `Accepted(grants[i], left)` of the bytes still left,
      and the calls stop once nothing is left or the results run out. */
  function Pieces(data: seq<byte>, grants: seq<int>): (r: seq<seq<byte>>)
    ensures |r| <= |grants|
    decreases |grants|
  {
    if grants == [] || data == [] then []
    else
      var a := Accepted(grants[0], |data|);
      [data[..a]] + Pieces(data[a..], grants[1..])
  }

  /** The pieces are the accepted prefix of `data`, in order: everything but
      the bytes still unwritten when the results run out. */
  lemma {:induction false} PiecesFlatten(data: seq<byte>, grants: seq<int>)
    ensures Flatten(Pieces(data, grants)) == data[..|data| - Remaining(grants, |data|)]
    decreases |grants|
  {
    if grants == [] || data == [] {
      assert data[..|data| - Remaining(grants, |data|)] == [];
    } else {
      var a := Accepted(grants[0], |data|);
      var rest := Pieces(data[a..], grants[1..]);
      PiecesFlatten(data[a..], grants[1..]);
      FlattenCons(data[..a], rest);
      assert data[..a] + data[a..][..|data| - a - Remaining(grants[1..], |data| - a)] ==
        data[..|data| - Remaining(grants, |data|)];
    }
  }

  /** Writes all of `data`, retrying after partial writes; `chunks` are the
      pieces the successive write calls accepted. The descriptor must
      eventually accept everything, or the loop would not end. */
  method WriteLine(data: seq<byte>, grants: seq<int>) returns (written: nat, chunks: seq<seq<byte>>)
    requires Remaining(grants, |data|) == 0
    ensures written == |data|
    ensures chunks == Pieces(data, grants)
    ensures Flatten(chunks) == data
    ensures |chunks| <= |grants|
  {
    var nleft: nat := |data|;
    var offset: nat := 0;
    var i := 0;
    chunks := [];
    while nleft > 0
      invariant i <= |grants| && offset + nleft == |data|
      invariant Remaining(grants[i..], nleft) == 0
      invariant chunks + Pieces(data[offset..], grants[i..]) == Pieces(data, grants)
      invariant |chunks| == i
      decreases |grants| - i
    {
      var nwritten := Accepted(grants[i], nleft);
      WriteStep(data, grants, offset, i, chunks);
      chunks := chunks + [data[offset..offset + nwritten]];
      nleft := nleft - nwritten;
      offset := offset + nwritten;
      i := i + 1;
      assert chunks + Pieces(data[offset..], grants[i..]) == Pieces(data, grants);
    }
    assert data[offset..] == [];
    PiecesFlatten(data, grants);
    assert data[..|data|] == data;
    written := |data|;
  }

  /** One write call of the loop: the bytes left from `offset` are not
      exhausted while results remain, the call takes its piece, and the rest
      is left to the following calls. */
  lemma WriteStep(data: seq<byte>, grants: seq<int>, offset: nat, i: nat, chunks: seq<seq<byte>>)
    requires offset < |data| && i <= |grants| && Remaining(grants[i..], |data| - offset) == 0
    requires chunks + Pieces(data[offset..], grants[i..]) == Pieces(data, grants)
    ensures i < |grants|
    ensures var a := Accepted(grants[i], |data| - offset);
      offset + a <= |data| &&
      Remaining(grants[i + 1..], |data| - offset - a) == 0 &&
      (chunks + [data[offset..offset + a]]) + Pieces(data[offset + a..], grants[i + 1..]) == Pieces(data, grants)
  {
    var g := grants[i..];
    assert g != [];
    assert g[1..] == grants[i + 1..];
    var a := Accepted(grants[i], |data| - offset);
    assert data[offset..][a..] == data[offset + a..];
    assert data[offset..][..a] == data[offset..offset + a];
    var piece, rest := data[offset..offset + a], Pieces(data[offset + a..], grants[i + 1..]);
    assert Pieces(data[offset..], g) == [piece] + rest;
    assert chunks + ([piece] + rest) == (chunks + [piece]) + rest;
  }

  /** The bytes of a C string: those before its first NUL. */
  function CStringBytes(s: seq<byte>): (b: seq<byte>)
    ensures |b| <= |s| && b == s[..|b|] && Nul !in b
    ensures |b| < |s| ==> s[|b|] == Nul
  {
    if s == [] || s[0] == Nul then [] else [s[0]] + CStringBytes(s[1..])
  }

  /** WriteLine on a NUL-terminated buffer writes the bytes before the NUL. */
  method WriteCString(buffer: seq<byte>, grants: seq<int>) returns (written: nat, chunks: seq<seq<byte>>)
    requires Nul in buffer
    requires Remaining(grants, |CStringBytes(buffer)|) == 0
    ensures written == |CStringBytes(buffer)|
    ensures chunks == Pieces(CStringBytes(buffer), grants)
    ensures Flatten(chunks) == CStringBytes(buffer)
  {
    written, chunks := WriteLine(CStringBytes(buffer), grants);
  }

  /** Write(str) writes all of the string's bytes, NULs included. */
  method Write(str: seq<byte>, grants: seq<int>) returns (written: nat, chunks: seq<seq<byte>>)
    requires Remaining(grants, |str|) == 0
    ensures written == |str|
    ensures chunks == Pieces(str, grants)
    ensures Flatten(chunks) == str
  {
    written, chunks := WriteLine(str, grants);
  }
}
