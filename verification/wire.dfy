/** The control-socket protocol shared by the client (src/main.cpp) and the
    daemon (src/daemon.cpp): a frame is a 4-byte length in network byte
    order followed by that many bytes; a request's bytes are the command
    words, each followed by one space, and the daemon splits them back into
    words at whitespace. */
module Wire {
  import opened Wrappers
  import opened Text

  /** One more than the largest `uint32_t`. */
  const LengthLimit := 0x1_0000_0000

  // ---- the length prefix

  /** `htonl(n)` as it lies in memory: most significant byte first. */
  function EncodeLength(n: int): (b: seq<byte>)
    requires 0 <= n < LengthLimit
    ensures |b| == 4
  {
    [(n / 0x100_0000) as byte, (n / 0x1_0000 % 0x100) as byte, (n / 0x100 % 0x100) as byte, (n % 0x100) as byte]
  }

  /** `ntohl` of four bytes read from the socket. */
  function DecodeLength(b: seq<byte>): (n: int)
    requires |b| == 4
    ensures 0 <= n < LengthLimit
  {
    b[0] as int * 0x100_0000 + b[1] as int * 0x1_0000 + b[2] as int * 0x100 + b[3] as int
  }

  lemma LengthRoundTrip(n: int)
    requires 0 <= n < LengthLimit
    ensures DecodeLength(EncodeLength(n)) == n
  {
    var q1 := n / 0x100;
    var q2 := q1 / 0x100;
    var q3 := q2 / 0x100;
    assert n == q1 * 0x100 + n % 0x100;
    assert q1 == q2 * 0x100 + q1 % 0x100;
    assert q2 == q3 * 0x100 + q2 % 0x100;
    assert n == q2 * 0x1_0000 + (q1 % 0x100) * 0x100 + n % 0x100;
    assert n / 0x1_0000 == q2;
    assert n == q3 * 0x100_0000 + (q2 % 0x100) * 0x1_0000 + (q1 % 0x100) * 0x100 + n % 0x100;
    assert n / 0x100_0000 == q3;
  }

  lemma PrefixRoundTrip(b: seq<byte>)
    requires |b| == 4
    ensures EncodeLength(DecodeLength(b)) == b
  {
    var n := DecodeLength(b);
    var hi := b[0] as int * 0x100 + b[1] as int;
    var mid := hi * 0x100 + b[2] as int;
    assert n == mid * 0x100 + b[3] as int;
    assert n % 0x100 == b[3] as int && n / 0x100 == mid;
    assert mid % 0x100 == b[2] as int && mid / 0x100 == hi;
    assert hi % 0x100 == b[1] as int && hi / 0x100 == b[0] as int;
    assert n / 0x1_0000 == hi;
    assert n / 0x100_0000 == b[0] as int;
  }

  // ---- frames

  /** A frame for a payload: `htonl` of the payload's `size()`, which keeps
      the low 32 bits, then the payload itself. */
  function Frame(payload: seq<byte>): (f: seq<byte>)
    ensures |f| == 4 + |payload|
    ensures f[4..] == payload
  {
    EncodeLength(|payload| % LengthLimit) + payload
  }

  /** The reading side of a frame over the bytes the peer sent: four bytes
      of length, then exactly that many payload bytes; either read coming
      up short is a failure. Bytes after the frame are not read. */
  function ReadFrame(input: seq<byte>): (r: Option<seq<byte>>)
    ensures r.None? <==> |input| < 4 || |input| - 4 < DecodeLength(input[..4])
    ensures r.Some? ==> |r.value| == DecodeLength(input[..4]) && r.value <= input[4..]
  {
    if |input| < 4 then None
    else
      var n := DecodeLength(input[..4]);
      if |input| - 4 < n then None else Some(input[4..4 + n])
  }

  /** A frame is read back as its payload, whatever follows it. */
  lemma FrameRoundTrip(payload: seq<byte>, rest: seq<byte>)
    requires |payload| < LengthLimit
    ensures ReadFrame(Frame(payload) + rest) == Some(payload)
  {
    var input := Frame(payload) + rest;
    assert input[..4] == EncodeLength(|payload|);
    LengthRoundTrip(|payload|);
    assert input[4..4 + |payload|] == payload;
  }

  /** A frame cut short anywhere is rejected. */
  lemma TruncatedFrame(payload: seq<byte>, k: nat)
    requires |payload| < LengthLimit
    requires k < 4 + |payload|
    ensures ReadFrame(Frame(payload)[..k]) == None
  {
    if k >= 4 {
      var f := Frame(payload);
      assert |payload| % LengthLimit == |payload|;
      assert f[..4] == EncodeLength(|payload|);
      assert f[..k][..4] == f[..4];
      LengthRoundTrip(|payload|);
      assert |f[..k]| - 4 < DecodeLength(f[..k][..4]);
    }
  }

  // ---- request text and its words

  /** What the client's `ostringstream` holds: each argument followed by
      one space. */
  function RequestText(args: seq<string>): string
    decreases |args|
  {
    if args == [] then [] else args[0] + " " + RequestText(args[1..])
  }

  function TotalLength(args: seq<string>): nat
    decreases |args|
  {
    if args == [] then 0 else |args[0]| + TotalLength(args[1..])
  }

  /** The request is as long as its arguments together plus one space
      each. */
  lemma {:induction false} RequestLength(args: seq<string>)
    ensures |RequestText(args)| == TotalLength(args) + |args|
    decreases |args|
  {
    if args != [] {
      RequestLength(args[1..]);
    }
  }

  /** Length of the run of non-whitespace characters `s` starts with. */
  function WordLength(s: string): (n: nat)
    ensures n <= |s|
    ensures s != [] && !IsSpace(s[0]) ==> n > 0
    decreases |s|
  {
    if s == [] || IsSpace(s[0]) then 0 else 1 + WordLength(s[1..])
  }

  /** The run is maximal: none of its characters is whitespace and it ends
      at whitespace or at the end of the text. */
  lemma {:induction false} WordLengthSpec(s: string)
    ensures NoSpace(s[..WordLength(s)])
    ensures WordLength(s) < |s| ==> IsSpace(s[WordLength(s)])
    ensures s != [] && !IsSpace(s[0]) ==> WordLength(s) > 0
    decreases |s|
  {
    if s != [] && !IsSpace(s[0]) {
      WordLengthSpec(s[1..]);
      assert s[..WordLength(s)] == [s[0]] + s[1..][..WordLength(s[1..])];
    }
  }

  /** `while (iss >> arg)`: the maximal runs of non-whitespace characters,
      in order. */
  function Tokens(s: string): seq<string>
    decreases |s|
  {
    if s == [] then []
    else if IsSpace(s[0]) then Tokens(s[1..])
    else
      var n := WordLength(s);
      [s[..n]] + Tokens(s[n..])
  }

  /** No token is empty or holds whitespace, and a text yields no token
      exactly when it is all whitespace. */
  lemma {:induction false} TokensSpec(s: string)
    ensures forall i :: 0 <= i < |Tokens(s)| ==> Tokens(s)[i] != [] && NoSpace(Tokens(s)[i])
    ensures Tokens(s) == [] <==> AllSpace(s)
    decreases |s|
  {
    if s == [] {
    } else if IsSpace(s[0]) {
      TokensSpec(s[1..]);
      assert AllSpace(s) <==> AllSpace(s[1..]) by {
        if AllSpace(s[1..]) {
          forall i | 0 <= i < |s| ensures IsSpace(s[i]) {
            if i > 0 { assert s[i] == s[1..][i - 1]; }
          }
        }
      }
    } else {
      WordLengthSpec(s);
      var n := WordLength(s);
      TokensSpec(s[n..]);
      var ts := Tokens(s);
      assert ts == [s[..n]] + Tokens(s[n..]);
      forall i | 0 <= i < |ts| ensures ts[i] != [] && NoSpace(ts[i]) {
        if i > 0 { assert ts[i] == Tokens(s[n..])[i - 1]; }
      }
    }
  }

  /** A whitespace character separates: the tokens of `a`, a whitespace
      character and `b` are those of `a` followed by those of `b`. */
  lemma {:induction false} TokensSplit(a: string, c: char, b: string)
    requires IsSpace(c)
    ensures Tokens(a + [c] + b) == Tokens(a) + Tokens(b)
    decreases |a|, 1
  {
    if a == [] {
      assert (a + [c] + b)[1..] == b;
    } else if IsSpace(a[0]) {
      TokensSplitSpace(a, c, b);
    } else {
      TokensSplitWord(a, c, b);
    }
  }

  lemma {:induction false} TokensSplitSpace(a: string, c: char, b: string)
    requires IsSpace(c) && a != [] && IsSpace(a[0])
    ensures Tokens(a + [c] + b) == Tokens(a) + Tokens(b)
    decreases |a|, 0
  {
    assert (a + [c] + b)[1..] == a[1..] + [c] + b;
    TokensSplit(a[1..], c, b);
  }

  lemma {:induction false} TokensSplitWord(a: string, c: char, b: string)
    requires IsSpace(c) && a != [] && !IsSpace(a[0])
    ensures Tokens(a + [c] + b) == Tokens(a) + Tokens(b)
    decreases |a|, 0
  {
    var s := a + [c] + b;
    var n := WordLength(a);
    WordLengthPrefix(a, [c] + b);
    assert s == a + ([c] + b);
    assert s[..n] == a[..n];
    assert s[n..] == a[n..] + [c] + b;
    TokensSplit(a[n..], c, b);
  }

  /** Appending text that starts with whitespace does not lengthen the
      first word. */
  lemma {:induction false} WordLengthPrefix(a: string, t: string)
    requires t != [] && IsSpace(t[0])
    ensures WordLength(a + t) == WordLength(a)
    decreases |a|
  {
    if a == [] {
      assert a + t == t;
    } else if !IsSpace(a[0]) {
      assert (a + t)[1..] == a[1..] + t;
      WordLengthPrefix(a[1..], t);
    }
  }

  /** A single word is its own only token. */
  lemma TokensOfWord(w: string)
    requires w != [] && NoSpace(w)
    ensures Tokens(w) == [w]
  {
    WordLengthWhole(w);
    assert w[..|w|] == w && w[|w|..] == [];
  }

  lemma {:induction false} WordLengthWhole(w: string)
    requires NoSpace(w)
    ensures WordLength(w) == |w|
    decreases |w|
  {
    if w != [] {
      WordLengthWhole(w[1..]);
    }
  }

  /** Splitting the request text gives back the arguments, when every
      argument is a non-empty run without whitespace. */
  lemma {:induction false} TokensOfRequest(args: seq<string>)
    requires forall i :: 0 <= i < |args| ==> args[i] != [] && NoSpace(args[i])
    ensures Tokens(RequestText(args)) == args
    decreases |args|
  {
    if args != [] {
      TokensOfRequest(args[1..]);
      TokensSplit(args[0], ' ', RequestText(args[1..]));
      assert args[0] + " " + RequestText(args[1..]) == args[0] + [' '] + RequestText(args[1..]);
      TokensOfWord(args[0]);
    }
  }

  /** The daemon's tokenizing loop over the request text. */
  method Tokenize(command: string) returns (args: seq<string>)
    ensures args == Tokens(command)
  {
    args := [];
    var pos := 0;
    while pos < |command|
      invariant 0 <= pos <= |command|
      invariant args + Tokens(command[pos..]) == Tokens(command)
    {
      var rest := command[pos..];
      if IsSpace(command[pos]) {
        assert rest[1..] == command[pos + 1..];
        pos := pos + 1;
      } else {
        var n := WordLength(rest);
        assert rest[..n] == command[pos..pos + n] && rest[n..] == command[pos + n..];
        args := args + [command[pos..pos + n]];
        pos := pos + n;
      }
    }
    assert command[pos..] == [];
  }
}
