/**
  The raw-data dump at the end of `parseAndDisplayData`: one token per
  received byte, the two LED bytes in decimal and every later byte in
  hexadecimal, annotated with its character when it is printable (32..126),
  and a line break after every eighth byte except the last byte. The model
  keeps the kind of each token and the place of each break, not the exact
  characters printed.
 */
module RawDump {
  import opened Bytes

  /** How one byte is printed: "%d ", "%02X " or "%02X('%c') ". */
  datatype Token = Dec(value: byte) | HexOnly(value: byte) | HexAndChar(value: byte)

  datatype DumpItem = Tok(token: Token) | LineBreak

  /** Bytes per dump line. */
  const BytesPerLine: nat := 8

  predicate Printable(b: byte) {
    32 <= b <= 126
  }

  /** The token for byte `b` at index `i`. */
  function TokenFor(i: nat, b: byte): Token {
    if i < 2 then Dec(b)
    else if Printable(b) then HexAndChar(b)
    else HexOnly(b)
  }

  /** Whether a line break follows the byte at index `i` of a `length`-byte dump. */
  predicate BreakAfter(i: nat, length: nat) {
    (i + 1) % BytesPerLine == 0 && i < length - 1
  }

  /** What the loop body prints for the byte at index `i`. */
  function ItemsFor(s: seq<byte>, i: nat): seq<DumpItem>
    requires i < |s|
  {
    [Tok(TokenFor(i, s[i]))] + (if BreakAfter(i, |s|) then [LineBreak] else [])
  }

  /** What the loop has printed after its first `n` iterations. */
  function DumpPrefix(s: seq<byte>, n: nat): seq<DumpItem>
    requires n <= |s|
  {
    if n == 0 then [] else DumpPrefix(s, n - 1) + ItemsFor(s, n - 1)
  }

  /** The whole dump of `s`. */
  function Dump(s: seq<byte>): seq<DumpItem> {
    DumpPrefix(s, |s|)
  }

  /** Where the token of byte `j` lands: after `j` tokens and the `j / 8`
      breaks that precede it. */
  function Position(j: nat): nat {
    j + j / BytesPerLine
  }

  /** After `n` iterations: the number of items printed, the token of each
      byte at its position, and a break right after each byte that has one. */
  lemma {:induction false} DumpPrefixLayout(s: seq<byte>, n: nat)
    requires n <= |s|
    ensures |DumpPrefix(s, n)| == n + (if n == |s| && n > 0 then (n - 1) / BytesPerLine else n / BytesPerLine)
    ensures forall j | 0 <= j < n :: Position(j) < |DumpPrefix(s, n)| && DumpPrefix(s, n)[Position(j)] == Tok(TokenFor(j, s[j]))
    ensures forall j | 0 <= j < n && BreakAfter(j, |s|) ::
              Position(j) + 1 < |DumpPrefix(s, n)| && DumpPrefix(s, n)[Position(j) + 1] == LineBreak
  {
    if n > 0 {
      var m := n - 1;
      DumpPrefixLayout(s, m);
      var p := DumpPrefix(s, m);
      assert |p| == m + m / BytesPerLine;
      assert DumpPrefix(s, n) == p + ItemsFor(s, m);
      forall j | 0 <= j < m && BreakAfter(j, |s|)
        ensures Position(j) + 1 < |p|
      {
        assert j + 1 <= m;
        assert j + 1 == m ==> j / BytesPerLine < m / BytesPerLine;
      }
    }
  }

  /** The dump of `s`: |s| tokens and (|s| - 1) / 8 breaks, byte `j`'s token
      at Position(j), a break right after it exactly when (j + 1) % 8 == 0 and
      j is not the last index, and never a break at the end. */
  lemma {:induction false} DumpLayout(s: seq<byte>)
    ensures |Dump(s)| == |s| + (if |s| == 0 then 0 else (|s| - 1) / BytesPerLine)
    ensures forall j | 0 <= j < |s| :: Dump(s)[Position(j)] == Tok(TokenFor(j, s[j]))
    ensures forall j | 0 <= j < |s| && BreakAfter(j, |s|) :: Dump(s)[Position(j) + 1] == LineBreak
    ensures |s| > 0 ==> Position(|s| - 1) == |Dump(s)| - 1 && Dump(s)[|Dump(s)| - 1].Tok?
  {
    DumpPrefixLayout(s, |s|);
  }

  /** The dump loop over the first `length` bytes of `buffer`. */
  method DumpRaw(buffer: array<byte>, length: nat) returns (items: seq<DumpItem>)
    requires length <= buffer.Length
    ensures items == Dump(buffer[..length])
  {
    ghost var s := buffer[..length];
    items := [];
    for i := 0 to length
      invariant items == DumpPrefix(s, i)
    {
      var token;
      if i < 2 {
        token := Dec(buffer[i]);
      } else if 32 <= buffer[i] <= 126 {
        token := HexAndChar(buffer[i]);
      } else {
        token := HexOnly(buffer[i]);
      }
      items := items + [Tok(token)];
      if (i + 1) % 8 == 0 && i < length - 1 {
        items := items + [LineBreak];
      }
    }
  }
}
