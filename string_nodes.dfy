/** StringNode: a string literal node. Its constructor strips repeated outer
    quote pairs; its printed form and identifier put one pair back. */
module StringNodes {
  import opened Base

  const QUOTE: char := '"'

  /** s both starts and ends with a quote: the constructor's loop condition. */
  predicate Wrapped(s: string)
  {
    |s| > 0 && s[0] == QUOTE && s[|s| - 1] == QUOTE
  }

  /** What the constructor stores for s. Dropping the first and last character
      of the one-character string made of a quote is an out-of-bounds
      substring, which the constructor does not catch. */
  function Unquote(s: string): Result<string>
    decreases |s|
  {
    if !Wrapped(s) then Ok(s)
    else if |s| < 2 then Err(IndexOutOfBounds)
    else Unquote(s[1..|s| - 1])
  }

  /** Text made only of quotes. */
  predicate AllQuotes(s: string)
  {
    forall i :: 0 <= i < |s| ==> s[i] == QUOTE
  }

  /** The constructor: repeatedly drop one leading and one trailing quote while
      both are there. */
  method StripQuotes(s: string) returns (r: Result<string>)
    ensures r == Unquote(s)
    ensures r.Ok? ==> !Wrapped(r.value)
  {
    var str := s;
    while Wrapped(str)
      invariant Unquote(str) == Unquote(s)
      decreases |str|
    {
      if |str| < 2 {
        return Err(IndexOutOfBounds);
      }
      str := str[1..|str| - 1];
    }
    r := Ok(str);
  }

  /** The stored value never both starts and ends with a quote. */
  lemma {:induction false} UnquoteNotWrapped(s: string)
    requires Unquote(s).Ok?
    ensures !Wrapped(Unquote(s).value)
    decreases |s|
  {
    if Wrapped(s) {
      UnquoteNotWrapped(s[1..|s| - 1]);
    }
  }

  /** Construction fails exactly on an odd-length run of quotes. */
  lemma {:induction false} UnquoteFailsExactly(s: string)
    ensures Unquote(s).Err? <==> (AllQuotes(s) && |s| % 2 == 1)
    decreases |s|
  {
    if Wrapped(s) && |s| >= 2 {
      var inner := s[1..|s| - 1];
      UnquoteFailsExactly(inner);
      if AllQuotes(inner) {
        forall i | 0 <= i < |s| ensures s[i] == QUOTE {
          if 0 < i < |s| - 1 { assert s[i] == inner[i - 1]; }
        }
      }
      if AllQuotes(s) {
        forall i | 0 <= i < |inner| ensures inner[i] == QUOTE {
          assert inner[i] == s[i + 1];
        }
      }
    } else if !Wrapped(s) && |s| % 2 == 1 {
      assert s[0] != QUOTE || s[|s| - 1] != QUOTE;
    }
  }

  /** The printed form (toString), which is also the identifier
      (getIdentifier). */
  function Identifier(value: string): (r: string)
    ensures |r| == |value| + 2 && Wrapped(r)
    ensures r[1..|r| - 1] == value
  {
    [QUOTE] + value + [QUOTE]
  }

  /** Quoted and unquoted text make the same node: `"Test"` and `Test`. */
  lemma QuotedSameAsBare(s: string)
    ensures Unquote(Identifier(s)) == Unquote(s)
  {
    var q := Identifier(s);
    assert q[1..|q| - 1] == s;
  }

  /** Re-parsing a node's identifier gives back the same node. */
  lemma {:induction false} ReparseIdentifier(s: string)
    requires Unquote(s).Ok?
    ensures Unquote(Identifier(Unquote(s).value)) == Unquote(s)
  {
    var v := Unquote(s).value;
    UnquoteNotWrapped(s);
    QuotedSameAsBare(v);
  }

  /** equals: true exactly for another StringNode with the same value (false
      for null and for nodes of another class). */
  function StringNodeEquals(self: string, obj: Option<Node>): (r: bool)
    ensures r <==> obj == Some(Str(self))
  {
    match obj
    case None => false
    case Some(n) => n.Str? && n.value == self
  }

  const TWO_32: int := 0x1_0000_0000

  /** A mathematical integer reduced to a Java int (32-bit two's complement). */
  function Wrap32(x: int): (r: int)
    ensures -0x8000_0000 <= r < 0x8000_0000
    ensures (x - r) % TWO_32 == 0
  {
    var m := x % TWO_32;
    if m >= 0x8000_0000 then m - TWO_32 else m
  }

  /** Java's String.hashCode: h = 31 * h + c over the characters, in int. */
  function StringHash(s: string): int
  {
    if s == [] then 0 else Wrap32(31 * StringHash(s[..|s| - 1]) + s[|s| - 1] as int)
  }

  /** hashCode: 31 * 1 + the value's hash, in int. */
  function HashCode(value: string): (r: int)
    ensures -0x8000_0000 <= r < 0x8000_0000
  {
    Wrap32(31 + StringHash(value))
  }

  /** Equal string nodes have equal hash codes. */
  lemma EqualsConsistentWithHash(a: string, b: string)
    requires StringNodeEquals(a, Some(Str(b)))
    ensures HashCode(a) == HashCode(b)
  {
  }
}
