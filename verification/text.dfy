/** Character-level helpers shared by the configuration parser, the request
    tokenizer and the command dispatcher. A `char` of the model stands for one
    byte of a C++ `std::string`. */
module Text {

  /** One octet on the wire or in a BLOB column. */
  newtype byte = b: int | 0 <= b < 256

  /** `std::isspace` in the "C" locale: space, \t, \n, \v, \f, \r. */
  predicate IsSpace(c: char) {
    c == ' ' || c == '\t' || c == '\n' || c == '\U{0B}' || c == '\U{0C}' || c == '\r'
  }

  /** No character of `s` is whitespace. */
  predicate NoSpace(s: string) {
    forall i :: 0 <= i < |s| ==> !IsSpace(s[i])
  }

  /** Every character of `s` is whitespace. */
  predicate AllSpace(s: string) {
    forall i :: 0 <= i < |s| ==> IsSpace(s[i])
  }

  /** The line `perror(what)` writes to the error stream, where `reason`
      is the text of `strerror(errno)`. */
  function Perror(what: string, reason: string): string {
    what + ": " + reason + "\n"
  }

  /** ASCII lower-casing, as the `icase` flag of `std::regex` applies it. */
  function Lower(c: char): (r: char)
    ensures 'A' <= c <= 'Z' ==> r as int == c as int + 32
    ensures !('A' <= c <= 'Z') ==> r == c
  {
    if 'A' <= c <= 'Z' then (c as int + 32) as char else c
  }

  /** Number of occurrences of `c` in `s`. */
  function CountChar(s: string, c: char): nat
    decreases |s|
  {
    if s == [] then 0 else (if s[0] == c then 1 else 0) + CountChar(s[1..], c)
  }

  /** `std::string::find(t) != npos`: `t` occurs somewhere in `s`. */
  predicate Occurs(t: string, s: string)
    decreases |s|
  {
    t <= s || (s != [] && Occurs(t, s[1..]))
  }

  /** `t` sits in `s` at index `i`. */
  predicate OccursAtIndex(t: string, s: string, i: int) {
    0 <= i <= |s| - |t| && s[i..i + |t|] == t
  }

  /** `Occurs` means what it says: some window of `s` equals `t`. */
  lemma {:induction false} OccursAt(t: string, s: string)
    ensures Occurs(t, s) <==> exists i :: OccursAtIndex(t, s, i)
    decreases |s|
  {
    if t <= s {
      assert OccursAtIndex(t, s, 0);
    } else if s == [] {
    } else {
      OccursAt(t, s[1..]);
      if Occurs(t, s[1..]) {
        var i :| OccursAtIndex(t, s[1..], i);
        assert s[i + 1..i + 1 + |t|] == s[1..][i..i + |t|];
        assert OccursAtIndex(t, s, i + 1);
      }
      if exists i :: OccursAtIndex(t, s, i) {
        var i :| OccursAtIndex(t, s, i);
        assert 1 <= i;
        assert s[1..][i - 1..i - 1 + |t|] == s[i..i + |t|];
        assert OccursAtIndex(t, s[1..], i - 1);
      }
    }
  }

  /** A text that can be sent as bytes: every character fits in one octet. */
  predicate IsByteString(s: string) {
    forall i :: 0 <= i < |s| ==> s[i] as int < 256
  }

  /** The octets of a text, one per character (`std::string::data()`); a
      character above 255 cannot occur in a C++ string and is cut to its low
      eight bits. */
  function ToBytes(s: string): (b: seq<byte>)
    ensures |b| == |s|
    ensures IsByteString(s) ==> forall i :: 0 <= i < |s| ==> b[i] as int == s[i] as int
  {
    seq(|s|, i requires 0 <= i < |s| => (s[i] as int % 256) as byte)
  }

  /** The text held by a byte buffer (`std::string(buffer.data(), n)`). */
  function FromBytes(b: seq<byte>): (s: string)
    ensures |s| == |b| && IsByteString(s)
    ensures forall i :: 0 <= i < |b| ==> s[i] as int == b[i] as int
  {
    seq(|b|, i requires 0 <= i < |b| => b[i] as int as char)
  }

  lemma TextRoundTrip(s: string)
    requires IsByteString(s)
    ensures FromBytes(ToBytes(s)) == s
  {
    var r := FromBytes(ToBytes(s));
    assert forall i :: 0 <= i < |s| ==> r[i] as int == s[i] as int;
  }

  lemma BytesRoundTrip(b: seq<byte>)
    ensures ToBytes(FromBytes(b)) == b
  {
  }
}
