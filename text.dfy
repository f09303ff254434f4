/** The few Kotlin standard-library string operations the currency formatter
    chains together (`reversed`, `chunked`, `joinToString`), written as
    functions on `seq<char>`, plus reference operations (`RemoveAll`, `Count`,
    `Split`) used to state what the formatter produces. */
module Text {

  /** `CharSequence.reversed()`. */
  function Reverse(s: string): (r: string)
    ensures |r| == |s|
  {
    if s == [] then [] else Reverse(s[1..]) + [s[0]]
  }

  /** `CharSequence.chunked(size)`: consecutive pieces of `size` characters,
      the last one possibly shorter; the empty string gives no pieces. Kotlin
      throws for a size that is not positive. */
  function Chunked(s: string, size: nat): (r: seq<string>)
    requires size > 0
    ensures forall i :: 0 <= i < |r| ==> 0 < |r[i]| <= size
    ensures forall i :: 0 <= i < |r| - 1 ==> |r[i]| == size
    ensures Concat(r) == s
    decreases |s|
  {
    if s == [] then []
    else if |s| <= size then [s]
    else [s[..size]] + Chunked(s[size..], size)
  }

  /** `Iterable<String>.joinToString(sep)`. */
  function JoinToString(parts: seq<string>, sep: string): (r: string)
    ensures parts == [] ==> r == []
    ensures parts != [] ==> |parts[0]| <= |r| && r[..|parts[0]|] == parts[0]
  {
    if parts == [] then []
    else if |parts| == 1 then parts[0]
    else parts[0] + sep + JoinToString(parts[1..], sep)
  }

  /** Joining n pieces adds n - 1 copies of the separator to their total length. */
  lemma {:induction false} JoinLength(parts: seq<string>, sep: string)
    requires parts != []
    ensures |JoinToString(parts, sep)| == |Concat(parts)| + |sep| * (|parts| - 1)
  {
    if |parts| == 1 {
      assert Concat(parts) == parts[0] + Concat([]);
    } else {
      JoinLength(parts[1..], sep);
      assert |sep| * (|parts| - 1) == |sep| + |sep| * (|parts| - 2);
    }
  }

  /** The string with every occurrence of `c` deleted. */
  function RemoveAll(s: string, c: char): (r: string)
    ensures c !in r
  {
    if s == [] then []
    else (if s[0] == c then [] else [s[0]]) + RemoveAll(s[1..], c)
  }

  /** The number of occurrences of `c` in `s`. */
  function Count(s: string, c: char): (r: nat)
    ensures r <= |s|
  {
    if s == [] then 0
    else (if s[0] == c then 1 else 0) + Count(s[1..], c)
  }

  /** The pieces of `s` between occurrences of `sep`, left to right; a string
      with k separators has k + 1 pieces. */
  function Split(s: string, sep: char): (r: seq<string>)
    ensures |r| == Count(s, sep) + 1
  {
    if s == [] then [[]]
    else
      var rest := Split(s[1..], sep);
      if s[0] == sep then [[]] + rest
      else [[s[0]] + rest[0]] + rest[1..]
  }

  /** The concatenation of a sequence of strings. */
  function Concat(parts: seq<string>): (r: string)
  {
    if parts == [] then [] else parts[0] + Concat(parts[1..])
  }

  /** Proof step: moving the first piece of a four-piece concatenation out of
      the brackets. Kept as a lemma of its own because the same fact asserted
      inside the grouping proofs is far more expensive for the solver. */
  lemma AppendRegroup(x: string, g: string, s: string, t: string)
    ensures ((x + g) + s) + t == x + ((g + s) + t)
  {
    assert (x + g) + s == x + (g + s);
  }

  /** Proof step: deleting `c` from the one-character string `c`. */
  lemma RemoveAllSingle(c: char)
    ensures RemoveAll([c], c) == []
  {
  }

  /** Proof step: the one-character string `c` holds one `c`. */
  lemma CountSingle(c: char)
    ensures Count([c], c) == 1
  {
  }

  lemma {:induction false} ReverseAppend(a: string, b: string)
    ensures Reverse(a + b) == Reverse(b) + Reverse(a)
  {
    if a == [] {
      assert a + b == b;
    } else {
      assert (a + b)[1..] == a[1..] + b;
      ReverseAppend(a[1..], b);
    }
  }

  /** The character at position k of the reversal is the k-th from the end. */
  lemma {:induction false} ReverseAt(s: string)
    ensures forall k :: 0 <= k < |s| ==> Reverse(s)[k] == s[|s| - 1 - k]
  {
    if s != [] {
      ReverseAt(s[1..]);
    }
  }

  lemma {:induction false} ReverseInvolution(s: string)
    ensures Reverse(Reverse(s)) == s
  {
    if s != [] {
      ReverseAppend(Reverse(s[1..]), [s[0]]);
      ReverseInvolution(s[1..]);
    }
  }

  /** Joining a sequence of pieces with one more piece at its end. */
  lemma {:induction false} JoinSnoc(parts: seq<string>, last: string, sep: string)
    requires parts != []
    ensures JoinToString(parts + [last], sep) == JoinToString(parts, sep) + sep + last
  {
    if |parts| == 1 {
      assert parts + [last] == [parts[0], last];
    } else {
      var rest := parts[1..] + [last];
      assert (parts + [last])[1..] == rest;
      JoinSnoc(parts[1..], last, sep);
      assert JoinToString(parts + [last], sep) == parts[0] + sep + JoinToString(rest, sep);
    }
  }

  lemma {:induction false} RemoveAllAppend(a: string, b: string, c: char)
    ensures RemoveAll(a + b, c) == RemoveAll(a, c) + RemoveAll(b, c)
  {
    if a == [] {
      assert a + b == b;
    } else {
      assert (a + b)[1..] == a[1..] + b;
      RemoveAllAppend(a[1..], b, c);
    }
  }

  lemma {:induction false} RemoveAllAbsent(s: string, c: char)
    requires c !in s
    ensures RemoveAll(s, c) == s
  {
    if s != [] {
      RemoveAllAbsent(s[1..], c);
    }
  }

  lemma {:induction false} CountAppend(a: string, b: string, c: char)
    ensures Count(a + b, c) == Count(a, c) + Count(b, c)
  {
    if a == [] {
      assert a + b == b;
    } else {
      assert (a + b)[1..] == a[1..] + b;
      CountAppend(a[1..], b, c);
    }
  }

  lemma {:induction false} CountAbsent(s: string, c: char)
    requires c !in s
    ensures Count(s, c) == 0
  {
    if s != [] {
      CountAbsent(s[1..], c);
    }
  }

  /** Splitting a separator-free prefix glued to `t` extends the first piece of `t`. */
  lemma {:induction false} SplitPrefix(p: string, t: string, sep: char)
    requires sep !in p
    ensures Split(p + t, sep) == [p + Split(t, sep)[0]] + Split(t, sep)[1..]
  {
    var st := Split(t, sep);
    if p == [] {
      assert p + t == t;
      assert p + st[0] == st[0];
      assert [st[0]] + st[1..] == st;
    } else {
      assert (p + t)[1..] == p[1..] + t;
      SplitPrefix(p[1..], t, sep);
      assert [p[0]] + (p[1..] + Split(t, sep)[0]) == p + Split(t, sep)[0];
    }
  }

  /** Splitting undoes joining, as long as no piece holds the separator. */
  lemma {:induction false} SplitJoin(parts: seq<string>, sep: char)
    requires parts != []
    requires forall i :: 0 <= i < |parts| ==> sep !in parts[i]
    ensures Split(JoinToString(parts, [sep]), sep) == parts
  {
    if |parts| == 1 {
      SplitPrefix(parts[0], [], sep);
      assert parts[0] + [] == parts[0];
    } else {
      var tail := JoinToString(parts[1..], [sep]);
      assert JoinToString(parts, [sep]) == parts[0] + ([sep] + tail);
      SplitJoin(parts[1..], sep);
      SplitPrefix(parts[0], [sep] + tail, sep);
      assert ([sep] + tail)[1..] == tail;
      assert parts[0] + [] == parts[0];
      assert [parts[0]] + parts[1..] == parts;
    }
  }

  lemma {:induction false} ConcatSnoc(parts: seq<string>, last: string)
    ensures Concat(parts + [last]) == Concat(parts) + last
  {
    if parts == [] {
      assert parts + [last] == [last];
    } else {
      assert (parts + [last])[1..] == parts[1..] + [last];
      ConcatSnoc(parts[1..], last);
    }
  }
}
