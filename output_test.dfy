/**
  The output validator of POC/tests/OutputTest.py: read the finder's output file line by line;
  a "ts_" line names the current step, a "{...}" line is one component, parsed, sorted and
  paired with the component on the same line of the synthetic data file; any other line closes
  the step, comparing the sorted lists of components of both files when either is non-empty.
*/
module OutputTest {
  import opened Wrappers
  import opened Intervals

  // ---------------------------------------------------------------- sorted() and list.sort()

  /** le is a total order: what Python's < on ints and on lists of ints gives sorted(). */
  ghost predicate TotalOrder<T(!new)>(le: (T, T) -> bool) {
    && (forall a, b :: le(a, b) || le(b, a))
    && (forall a, b :: le(a, b) && le(b, a) ==> a == b)
    && (forall a, b, c :: le(a, b) && le(b, c) ==> le(a, c))
  }

  ghost predicate SortedBy<T>(s: seq<T>, le: (T, T) -> bool) {
    forall i, j :: 0 <= i < j < |s| ==> le(s[i], s[j])
  }

  function Insert<T>(x: T, s: seq<T>, le: (T, T) -> bool): (r: seq<T>)
    ensures multiset(r) == multiset(s) + multiset{x}
    decreases |s|
  {
    if |s| == 0 then [x]
    else if le(x, s[0]) then [x] + s
    else
      assert s == [s[0]] + s[1..];
      [s[0]] + Insert(x, s[1..], le)
  }

  /** sorted(s): the elements of s in non-decreasing order. */
  function Sort<T>(s: seq<T>, le: (T, T) -> bool): (r: seq<T>)
    ensures multiset(r) == multiset(s)
    decreases |s|
  {
    if |s| == 0 then []
    else
      assert s == [s[0]] + s[1..];
      Insert(s[0], Sort(s[1..], le), le)
  }

  /** A sorted sequence stays sorted with an element below all of it in front. */
  lemma {:induction false} SortedCons<T>(h: T, u: seq<T>, le: (T, T) -> bool)
    requires SortedBy(u, le) && forall k :: 0 <= k < |u| ==> le(h, u[k])
    ensures SortedBy([h] + u, le)
  {
    var r := [h] + u;
    forall i, j | 0 <= i < j < |r|
      ensures le(r[i], r[j])
    {
      assert r[j] == u[j - 1];
      if i > 0 {
        assert r[i] == u[i - 1];
      }
    }
  }

  /** A lower bound of x and of every element of t bounds every element of Insert(x, t). */
  lemma {:induction false} InsertLowerBound<T>(x: T, t: seq<T>, b: T, le: (T, T) -> bool)
    requires le(b, x) && forall k :: 0 <= k < |t| ==> le(b, t[k])
    ensures forall k :: 0 <= k < |Insert(x, t, le)| ==> le(b, Insert(x, t, le)[k])
  {
    var u := Insert(x, t, le);
    forall k | 0 <= k < |u|
      ensures le(b, u[k])
    {
      assert u[k] in multiset(u);
      if u[k] != x {
        assert u[k] in multiset(t);
        var i :| 0 <= i < |t| && t[i] == u[k];
      }
    }
  }

  lemma {:induction false} InsertSorted<T(!new)>(x: T, s: seq<T>, le: (T, T) -> bool)
    requires TotalOrder(le) && SortedBy(s, le)
    ensures SortedBy(Insert(x, s, le), le)
    decreases |s|
  {
    if |s| > 0 && !le(x, s[0]) {
      var t := s[1..];
      assert forall k :: 0 <= k < |t| ==> t[k] == s[k + 1];
      assert SortedBy(t, le);
      InsertSorted(x, t, le);
      assert le(s[0], x);
      InsertLowerBound(x, t, s[0], le);
      SortedCons(s[0], Insert(x, t, le), le);
    } else if |s| > 0 {
      assert forall k :: 0 <= k < |s| ==> le(x, s[k]) by {
        forall k | 0 <= k < |s|
          ensures le(x, s[k])
        {
          if k > 0 {
            assert le(s[0], s[k]);
          }
        }
      }
      SortedCons(x, s, le);
    }
  }

  /** sorted() returns its elements in order. */
  lemma {:induction false} SortSorted<T(!new)>(s: seq<T>, le: (T, T) -> bool)
    requires TotalOrder(le)
    ensures SortedBy(Sort(s, le), le)
    decreases |s|
  {
    if |s| > 0 {
      SortSorted(s[1..], le);
      InsertSorted(s[0], Sort(s[1..], le), le);
    }
  }

  /** The head of a sorted sequence is below each of its elements. */
  lemma {:induction false} SortedHeadLe<T(!new)>(a: seq<T>, x: T, le: (T, T) -> bool)
    requires TotalOrder(le) && SortedBy(a, le) && x in multiset(a)
    ensures le(a[0], x)
  {
    var i :| 0 <= i < |a| && a[i] == x;
    if i == 0 {
      assert le(x, x) || le(x, x);
    }
  }

  /** The tail of a sorted sequence is sorted, and holds the rest of its multiset. */
  lemma {:induction false} SortedTail<T>(a: seq<T>, le: (T, T) -> bool)
    requires SortedBy(a, le) && |a| > 0
    ensures SortedBy(a[1..], le)
    ensures multiset(a[1..]) == multiset(a) - multiset{a[0]}
  {
    assert forall k :: 0 <= k < |a| - 1 ==> a[1..][k] == a[k + 1];
    assert a == [a[0]] + a[1..];
  }

  /** Two sorted arrangements of one multiset start alike. */
  lemma {:induction false} SortedHeadsEqual<T(!new)>(a: seq<T>, b: seq<T>, le: (T, T) -> bool)
    requires TotalOrder(le) && SortedBy(a, le) && SortedBy(b, le)
    requires multiset(a) == multiset(b) && |a| > 0
    ensures |b| > 0 && a[0] == b[0]
  {
    assert a[0] in multiset(a);
    assert |b| > 0 && b[0] in multiset(b);
    SortedHeadLe(b, a[0], le);
    SortedHeadLe(a, b[0], le);
  }

  /** Under a total order there is one sorted arrangement of a multiset. */
  lemma {:induction false} SortedUnique<T(!new)>(a: seq<T>, b: seq<T>, le: (T, T) -> bool)
    requires TotalOrder(le) && SortedBy(a, le) && SortedBy(b, le)
    requires multiset(a) == multiset(b)
    ensures a == b
    decreases |a|
  {
    if |a| > 0 {
      assert |b| > 0 && a[0] == b[0] by {
        SortedHeadsEqual(a, b, le);
      }
      assert a[1..] == b[1..] by {
        SortedTail(a, le);
        SortedTail(b, le);
        SortedUnique(a[1..], b[1..], le);
      }
      assert a == [a[0]] + a[1..] && b == [b[0]] + b[1..];
    } else {
      assert |multiset(b)| == 0;
    }
  }

  /**
    sorted(a) == sorted(b) exactly when a and b hold the same elements the same number of
    times: the comparison ignores order and nothing else.
  */
  lemma {:induction false} SortEqIffPermutation<T(!new)>(a: seq<T>, b: seq<T>, le: (T, T) -> bool)
    requires TotalOrder(le)
    ensures Sort(a, le) == Sort(b, le) <==> multiset(a) == multiset(b)
  {
    if multiset(a) == multiset(b) {
      SortSorted(a, le);
      SortSorted(b, le);
      SortedUnique(Sort(a, le), Sort(b, le), le);
    }
  }

  function IntLe(a: int, b: int): bool {
    a <= b
  }

  /** Python's ordering of lists: lexicographic, a proper prefix first. */
  function LexLe(a: seq<int>, b: seq<int>): bool
    decreases |a|
  {
    |a| == 0 || (|b| > 0 && (a[0] < b[0] || (a[0] == b[0] && LexLe(a[1..], b[1..]))))
  }

  lemma {:induction false} IntLeTotal()
    ensures TotalOrder(IntLe)
  {
  }

  lemma {:induction false} LexTotalPair(a: seq<int>, b: seq<int>)
    ensures LexLe(a, b) || LexLe(b, a)
    ensures LexLe(a, b) && LexLe(b, a) ==> a == b
    decreases |a|
  {
    if |a| > 0 && |b| > 0 && a[0] == b[0] {
      LexTotalPair(a[1..], b[1..]);
      if a[1..] == b[1..] {
        assert a == [a[0]] + a[1..] && b == [b[0]] + b[1..];
      }
    }
  }

  lemma {:induction false} LexTrans(a: seq<int>, b: seq<int>, c: seq<int>)
    requires LexLe(a, b) && LexLe(b, c)
    ensures LexLe(a, c)
    decreases |a|
  {
    if |a| > 0 && a[0] == b[0] && b[0] == c[0] {
      LexTrans(a[1..], b[1..], c[1..]);
    }
  }

  /** The ordering on lists of ints is total, so sorted() on them is determined by the multiset. */
  lemma {:induction false} LexLeTotal()
    ensures TotalOrder(LexLe)
  {
    forall a, b
      ensures (LexLe(a, b) || LexLe(b, a)) && (LexLe(a, b) && LexLe(b, a) ==> a == b)
    {
      LexTotalPair(a, b);
    }
    forall a, b, c | LexLe(a, b) && LexLe(b, c)
      ensures LexLe(a, c)
    {
      LexTrans(a, b, c);
    }
  }

  // ---------------------------------------------------------------- lines

  /**
    The characters str.isspace() holds of, which str.strip() removes: '\t' .. '\r', the
    separators '\x1c' .. '\x1f', ' ', and the Unicode spaces and line separators.
  */
  predicate IsSpace(c: char) {
    || c == ' ' || '\t' <= c <= '\r' || 0x1C <= c as int <= 0x1F
    || c as int == 0x85 || c as int == 0xA0 || c as int == 0x1680
    || 0x2000 <= c as int <= 0x200A || c as int == 0x2028 || c as int == 0x2029
    || c as int == 0x202F || c as int == 0x205F || c as int == 0x3000
  }

  /** The blanks Python's tokenizer skips between tokens: space, tab and form feed. */
  predicate IsBlank(c: char) {
    c == ' ' || c == '\t' || c as int == 0x0C
  }

  /** The index of the first character at or after i that is not blank, or |s|. */
  function SkipBlank(s: string, i: nat, blank: char -> bool): (j: nat)
    requires i <= |s|
    ensures i <= j <= |s| && (j < |s| ==> !blank(s[j]))
    ensures forall k :: i <= k < j ==> blank(s[k])
    decreases |s| - i
  {
    if i < |s| && blank(s[i]) then SkipBlank(s, i + 1, blank) else i
  }

  /** One past the index of the last character before j that is not blank, or 0. */
  function SkipBlankBack(s: string, j: nat, blank: char -> bool): (k: nat)
    requires j <= |s|
    ensures k <= j && (k > 0 ==> !blank(s[k - 1]))
    ensures forall m :: k <= m < j ==> blank(s[m])
    decreases j
  {
    if j > 0 && blank(s[j - 1]) then SkipBlankBack(s, j - 1, blank) else j
  }

  /** s without the blanks at either end: empty exactly when s is all blanks. */
  function Trim(s: string, blank: char -> bool): (r: string)
    ensures |r| > 0 ==> !blank(r[0]) && !blank(r[|r| - 1])
    ensures |r| > 0 ==> SkipBlank(s, 0, blank) < SkipBlankBack(s, |s|, blank)
    ensures |r| > 0 ==> r == s[SkipBlank(s, 0, blank)..SkipBlankBack(s, |s|, blank)]
    ensures r == "" <==> forall k :: 0 <= k < |s| ==> blank(s[k])
  {
    var first := SkipBlank(s, 0, blank);
    var end := SkipBlankBack(s, |s|, blank);
    if end <= first then
      assert first < |s| ==> end > first;
      ""
    else s[first..end]
  }

  /**
    A middle part with no blank at its ends, padded with blanks on both sides, is trimmed
    back to itself.
  */
  lemma {:induction false} TrimPadded(lead: string, m: string, trail: string, blank: char -> bool)
    requires forall k :: 0 <= k < |lead| ==> blank(lead[k])
    requires forall k :: 0 <= k < |trail| ==> blank(trail[k])
    requires |m| > 0 ==> !blank(m[0]) && !blank(m[|m| - 1])
    ensures Trim(lead + m + trail, blank) == m
  {
    var s := lead + m + trail;
    if |m| == 0 {
      assert forall k :: 0 <= k < |s| ==> blank(s[k]) by {
        assert s == lead + trail;
        forall k | 0 <= k < |s|
          ensures blank(s[k])
        {
          if k >= |lead| {
            assert s[k] == trail[k - |lead|];
          }
        }
      }
    } else {
      var first := SkipBlank(s, 0, blank);
      var end := SkipBlankBack(s, |s|, blank);
      assert s[|lead|] == m[0] && s[|lead| + |m| - 1] == m[|m| - 1];
      assert forall k :: 0 <= k < |lead| ==> s[k] == lead[k];
      assert forall k :: |lead| + |m| <= k < |s| ==> s[k] == trail[k - |lead| - |m|];
      assert first == |lead|;
      assert end == |lead| + |m|;
      assert s[first..end] == m;
    }
  }

  /** str.strip(): s without its leading and trailing whitespace. */
  function Strip(s: string): (r: string)
    ensures |r| <= |s|
    ensures |r| > 0 ==> !IsSpace(r[0]) && !IsSpace(r[|r| - 1])
    ensures |r| > 0 ==> SkipBlank(s, 0, IsSpace) < SkipBlankBack(s, |s|, IsSpace)
    ensures |r| > 0 ==> r == s[SkipBlank(s, 0, IsSpace)..SkipBlankBack(s, |s|, IsSpace)]
    ensures r == "" <==> forall k :: 0 <= k < |s| ==> IsSpace(s[k])
  {
    Trim(s, IsSpace)
  }

  function StartsWith(s: string, prefix: string): bool {
    |prefix| <= |s| && s[..|prefix|] == prefix
  }

  /** s[1:len(s) - 1]: the text between the braces, empty for strings shorter than two. */
  function Inner(s: string): (r: string)
    ensures |s| >= 2 ==> r == s[1..|s| - 1]
    ensures |s| < 2 ==> r == ""
  {
    if |s| < 2 then "" else s[1..|s| - 1]
  }

  /**
    A decimal integer literal of Python: digits, with single '_' between digits, and no
    leading 0 unless every digit is 0.
  */
  predicate IsDecLiteral(s: string) {
    && |s| > 0 && IsDigit(s[0]) && IsDigit(s[|s| - 1])
    && (forall i :: 0 <= i < |s| ==> IsDigit(s[i]) || s[i] == '_')
    && (forall i :: 0 < i < |s| && s[i] == '_' ==> s[i - 1] != '_')
    && (s[0] == '0' ==> forall i :: 0 <= i < |s| ==> s[i] == '0' || s[i] == '_')
  }

  /** The digits of s, in order, without the underscores. */
  function DropUnderscores(s: string): (d: string)
    ensures (forall i :: 0 <= i < |s| ==> IsDigit(s[i]) || s[i] == '_') ==> AllDigits(d)
    ensures '_' !in s ==> d == s
    decreases |s|
  {
    if |s| == 0 then ""
    else (if s[0] == '_' then "" else [s[0]]) + DropUnderscores(s[1..])
  }

  /** The value of a decimal literal. */
  function LiteralValue(s: string): nat
    requires IsDecLiteral(s)
  {
    DigitsValue(DropUnderscores(s))
  }

  /**
    One comma-separated piece of a component, as literal_eval reads it: an int literal with at
    most one sign, blanks around the sign and the literal allowed.
  */
  function ParsePiece(piece: string): (r: Result<int>)
    ensures r.Err? ==> r.error == ValueError
  {
    ParseSigned(Trim(piece, IsBlank))
  }

  /** A trimmed piece: an optional sign, blanks, then a decimal literal. */
  function ParseSigned(t: string): (r: Result<int>)
    ensures r.Err? ==> r.error == ValueError
  {
    if |t| > 0 && (t[0] == '-' || t[0] == '+') then
      var u := t[SkipBlank(t, 1, IsBlank)..];
      if IsDecLiteral(u) then
        var v: int := LiteralValue(u);
        Ok(if t[0] == '-' then -v else v)
      else Err(ValueError)
    else if IsDecLiteral(t) then Ok(LiteralValue(t))
    else Err(ValueError)
  }

  /**
    Parse each comma-separated piece with parse; the first piece that does not parse makes the
    whole list malformed, which literal_eval reports by raising.
  */
  function ParseElements(pieces: seq<string>, parse: string -> Result<int>): (r: Result<seq<int>>)
    ensures r.Ok? ==> |r.value| == |pieces|
    ensures r.Err? ==> r.error == ValueError
    decreases |pieces|
  {
    if |pieces| == 0 then Ok([])
    else if parse(pieces[0]).Err? then Err(ValueError)
    else
      var rest :- ParseElements(pieces[1..], parse);
      Ok([parse(pieces[0]).value] + rest)
  }

  /** The i-th value of a parsed list is the value of the i-th piece. */
  lemma {:induction false} ParseElementsAt(pieces: seq<string>, parse: string -> Result<int>, i: nat)
    requires ParseElements(pieces, parse).Ok? && i < |pieces|
    ensures parse(pieces[i]) == Ok(ParseElements(pieces, parse).value[i])
    decreases i
  {
    if i > 0 {
      ParseElementsAt(pieces[1..], parse, i - 1);
      assert pieces[1..][i - 1] == pieces[i];
    }
  }

  /** A list with a piece that does not parse is malformed. */
  lemma {:induction false} ParseElementsFails(pieces: seq<string>, parse: string -> Result<int>, i: nat)
    requires i < |pieces| && parse(pieces[i]).Err?
    ensures ParseElements(pieces, parse).Err?
    decreases i
  {
    if i > 0 {
      assert pieces[1..][i - 1] == pieces[i];
      ParseElementsFails(pieces[1..], parse, i - 1);
    }
  }

  /**
    The list parses exactly when every piece parses, and then holds the values of the pieces
    in order.
  */
  lemma {:induction false} ParseElementsValues(pieces: seq<string>, parse: string -> Result<int>)
    ensures ParseElements(pieces, parse).Ok? <==> forall i :: 0 <= i < |pieces| ==> parse(pieces[i]).Ok?
    ensures ParseElements(pieces, parse).Ok? ==>
      forall i :: 0 <= i < |pieces| ==> parse(pieces[i]) == Ok(ParseElements(pieces, parse).value[i])
  {
    if ParseElements(pieces, parse).Ok? {
      forall i | 0 <= i < |pieces|
        ensures parse(pieces[i]) == Ok(ParseElements(pieces, parse).value[i])
      {
        ParseElementsAt(pieces, parse, i);
      }
    } else {
      if forall i :: 0 <= i < |pieces| ==> parse(pieces[i]).Ok? {
        AllPiecesParse(pieces, parse);
      }
    }
  }

  /** A list whose every piece parses is not malformed. */
  lemma {:induction false} AllPiecesParse(pieces: seq<string>, parse: string -> Result<int>)
    requires forall i :: 0 <= i < |pieces| ==> parse(pieces[i]).Ok?
    ensures ParseElements(pieces, parse).Ok?
    decreases |pieces|
  {
    if |pieces| > 0 {
      var tail := pieces[1..];
      assert forall i :: 0 <= i < |tail| ==> tail[i] == pieces[i + 1];
      AllPiecesParse(tail, parse);
    }
  }

  /**
    The comma-separated items of a list display: the pieces between the commas, without the
    last one when it is blank and follows a comma (one trailing comma is allowed).
  */
  function Items(inner: string): (items: seq<string>)
    ensures |items| >= 1
  {
    var pieces := Split(inner, ',');
    if |pieces| >= 2 && Trim(pieces[|pieces| - 1], IsBlank) == "" then pieces[..|pieces| - 1] else pieces
  }

  /**
    ast.literal_eval("[" + inner + "]") for a list of int literals: the empty list for blank
    text, otherwise every comma-separated item must be an int; anything else raises.
  */
  function ParseComponent(inner: string): (r: Result<seq<int>>)
    ensures r.Err? ==> r.error == ValueError
  {
    if Trim(inner, IsBlank) == "" then Ok([]) else ParseElements(Items(inner), ParsePiece)
  }

  /** ", ".join(map(str, xs)): the text between the braces of str() on a non-empty set of ints. */
  function JoinInts(xs: seq<int>): string
    requires |xs| > 0
    decreases |xs|
  {
    if |xs| == 1 then IntToString(xs[0]) else IntToString(xs[0]) + ", " + JoinInts(xs[1..])
  }

  lemma {:induction false} NatToStringLeading(n: nat)
    ensures n > 0 ==> NatToString(n)[0] != '0'
    decreases n
  {
    NatToStringDigits(n);
    if n >= 10 {
      NatToStringLeading(n / 10);
      NatToStringDigits(n / 10);
      assert NatToString(n)[0] == NatToString(n / 10)[0];
    }
  }

  /** str() on a natural number is a decimal literal of that value. */
  lemma {:induction false} NatToStringLiteral(n: nat)
    ensures IsDecLiteral(NatToString(n)) && LiteralValue(NatToString(n)) == n
  {
    NatToStringDigits(n);
    NatToStringLeading(n);
    var s := NatToString(n);
    assert '_' !in s by {
      assert forall k :: 0 <= k < |s| ==> IsDigit(s[k]);
    }
    if s[0] == '0' {
      assert n == 0;
    }
  }

  /** str(n) is read back as n once trimmed. */
  lemma {:induction false} SignedRoundTrip(n: int)
    ensures ParseSigned(IntToString(n)) == Ok(n)
  {
    if n < 0 {
      NatToStringLiteral(-n);
      NatToStringDigits(-n);
      NegativeParse("-" + NatToString(-n));
    } else {
      NatToStringLiteral(n);
      NatToStringDigits(n);
      UnsignedParse(NatToString(n));
    }
  }

  /** A literal without a sign is read as its value. */
  lemma {:induction false} UnsignedParse(t: string)
    requires IsDecLiteral(t)
    ensures ParseSigned(t) == Ok(LiteralValue(t))
  {
    assert IsDigit(t[0]);
  }

  /** A minus sign directly before a literal negates its value. */
  lemma {:induction false} NegativeParse(t: string)
    requires |t| > 1 && t[0] == '-' && IsDecLiteral(t[1..])
    ensures ParseSigned(t) == Ok(-(LiteralValue(t[1..]) as int))
  {
    assert t[1..][0] == t[1] && IsDigit(t[1]);
    assert SkipBlank(t, 1, IsBlank) == 1;
  }

  /** str(n), with blanks before it, is read back as n. */
  lemma {:induction false} PieceRoundTrip(pad: string, n: int)
    requires forall k :: 0 <= k < |pad| ==> IsBlank(pad[k])
    ensures ParsePiece(pad + IntToString(n)) == Ok(n)
  {
    var m := if n < 0 then -n else n;
    NatToStringDigits(m);
    var s := IntToString(n);
    assert !IsBlank(s[0]) && !IsBlank(s[|s| - 1]);
    TrimPadded(pad, s, "", IsBlank);
    assert pad + s + "" == pad + s;
    SignedRoundTrip(n);
  }

  /** The pieces of the joined text are str() of each value, all but the first after a blank. */
  lemma {:induction false} JoinedPieces(xs: seq<int>)
    requires |xs| > 0
    ensures |Split(JoinInts(xs), ',')| == |xs|
    ensures forall i :: 0 <= i < |xs| ==> Split(JoinInts(xs), ',')[i] == (if i == 0 then "" else " ") + IntToString(xs[i])
    decreases |xs|
  {
    if |xs| == 1 {
      IntStringNoComma(xs[0]);
      SplitNone(IntToString(xs[0]), ',');
      assert "" + IntToString(xs[0]) == IntToString(xs[0]);
    } else {
      JoinedPieces(xs[1..]);
      JoinedPiecesCons(xs);
    }
  }

  /** The induction step of JoinedPieces: the pieces of the tail's join give those of the whole join. */
  lemma {:induction false} JoinedPiecesCons(xs: seq<int>)
    requires |xs| > 1
    requires |Split(JoinInts(xs[1..]), ',')| == |xs| - 1
    requires forall i :: 0 <= i < |xs| - 1 ==> Split(JoinInts(xs[1..]), ',')[i] == (if i == 0 then "" else " ") + IntToString(xs[1..][i])
    ensures |Split(JoinInts(xs), ',')| == |xs|
    ensures forall i :: 0 <= i < |xs| ==> Split(JoinInts(xs), ',')[i] == (if i == 0 then "" else " ") + IntToString(xs[i])
  {
    IntStringNoComma(xs[0]);
    var a := IntToString(xs[0]);
    var tail := xs[1..];
    var w := JoinInts(tail);
    assert JoinInts(xs) == a + ", " + w;
    SplitBlankAfter(a, w);
    PiecesCons(xs[0], tail, Split(w, ','), Split(JoinInts(xs), ','));
    assert [xs[0]] + tail == xs;
  }

  /** The pieces for x in front of those for tail. */
  lemma {:induction false} PiecesCons(x: int, tail: seq<int>, rest: seq<string>, pieces: seq<string>)
    requires |tail| > 0 && |rest| == |tail|
    requires forall i :: 0 <= i < |tail| ==> rest[i] == (if i == 0 then "" else " ") + IntToString(tail[i])
    requires pieces == [IntToString(x)] + [[' '] + rest[0]] + rest[1..]
    ensures |pieces| == |tail| + 1
    ensures forall i :: 0 <= i < |tail| + 1 ==> pieces[i] == (if i == 0 then "" else " ") + IntToString(([x] + tail)[i])
  {
    forall i | 0 <= i < |tail| + 1
      ensures pieces[i] == (if i == 0 then "" else " ") + IntToString(([x] + tail)[i])
    {
      if i == 0 {
        assert "" + IntToString(x) == IntToString(x);
      } else if i == 1 {
        assert rest[0] == "" + IntToString(tail[0]);
      } else {
        assert pieces[i] == rest[i - 1];
      }
    }
  }

  /** Splitting a + ", " + w at its commas: a, then the first piece of w after the blank, then the rest of w's pieces. */
  lemma {:induction false} SplitBlankAfter(a: string, w: string)
    requires ',' !in a
    ensures Split(a + ", " + w, ',') == [a] + [[' '] + Split(w, ',')[0]] + Split(w, ',')[1..]
  {
    assert a + ", " + w == a + [','] + ([' '] + w);
    SplitAfter(a, ',', [' '] + w);
    assert ([' '] + w)[1..] == w;
  }

  /** str(n) starts with a sign or a digit and ends with a digit. */
  lemma {:induction false} IntStringEnds(n: int)
    ensures |IntToString(n)| > 0
    ensures !IsBlank(IntToString(n)[0]) && IsDigit(IntToString(n)[|IntToString(n)| - 1])
  {
    NatToStringDigits(if n < 0 then -n else n);
  }

  /** A list whose pieces parse to the values xs parses to xs. */
  lemma {:induction false} ParseElementsAre(pieces: seq<string>, parse: string -> Result<int>, xs: seq<int>)
    requires |pieces| == |xs|
    requires forall i :: 0 <= i < |xs| ==> parse(pieces[i]) == Ok(xs[i])
    ensures ParseElements(pieces, parse) == Ok(xs)
    decreases |pieces|
  {
    if |pieces| > 0 {
      assert forall i :: 1 <= i < |xs| ==> pieces[1..][i - 1] == pieces[i] && xs[1..][i - 1] == xs[i];
      ParseElementsAre(pieces[1..], parse, xs[1..]);
      assert [xs[0]] + xs[1..] == xs;
    }
  }

  /** Every piece of the joined text parses to its value. */
  lemma {:induction false} JoinedPiecesParse(xs: seq<int>, pieces: seq<string>)
    requires |pieces| == |xs|
    requires forall i :: 0 <= i < |xs| ==> pieces[i] == (if i == 0 then "" else " ") + IntToString(xs[i])
    ensures forall i :: 0 <= i < |xs| ==> ParsePiece(pieces[i]) == Ok(xs[i])
  {
    forall i | 0 <= i < |xs|
      ensures ParsePiece(pieces[i]) == Ok(xs[i])
    {
      PieceRoundTrip(if i == 0 then "" else " ", xs[i]);
    }
  }

  /** The joined text is not blank, and its last piece is not blank either. */
  lemma {:induction false} JoinedNotBlank(xs: seq<int>)
    requires |xs| > 0
    ensures Trim(JoinInts(xs), IsBlank) != ""
    ensures Items(JoinInts(xs)) == Split(JoinInts(xs), ',')
  {
    JoinedStartsNonBlank(xs);
    JoinedEndsNonBlank(xs);
  }

  /** The joined text starts with str() of the first value, so it is not blank. */
  lemma {:induction false} JoinedStartsNonBlank(xs: seq<int>)
    requires |xs| > 0
    ensures Trim(JoinInts(xs), IsBlank) != ""
  {
    var text := JoinInts(xs);
    JoinedPieces(xs);
    IntStringEnds(xs[0]);
    JoinText(text, Split(text, ','));
    NotAllBlank(text, 0);
  }

  /** The last piece of the joined text ends with a digit, so no trailing item is dropped. */
  lemma {:induction false} JoinedEndsNonBlank(xs: seq<int>)
    requires |xs| > 0
    ensures Items(JoinInts(xs)) == Split(JoinInts(xs), ',')
  {
    JoinedPieces(xs);
    var pieces := Split(JoinInts(xs), ',');
    var k := |xs| - 1;
    var u := IntToString(xs[k]);
    IntStringEnds(xs[k]);
    assert pieces[k] == (if k == 0 then "" else " ") + u;
    EndsWithDigit(pieces[k], if k == 0 then "" else " ", u);
    assert |pieces| - 1 == k;
    ItemsKeepLast(JoinInts(xs), pieces[k]);
  }

  /** A text ending with a digit ends with a non-blank character. */
  lemma {:induction false} EndsWithDigit(p: string, pre: string, u: string)
    requires p == pre + u && |u| > 0 && IsDigit(u[|u| - 1])
    ensures |p| > 0 && !IsBlank(p[|p| - 1])
  {
    assert p[|p| - 1] == u[|u| - 1];
  }

  /** When the last piece ends with a non-blank character, every piece is an item. */
  lemma {:induction false} ItemsKeepLast(text: string, last: string)
    requires Split(text, ',')[|Split(text, ',')| - 1] == last
    requires |last| > 0 && !IsBlank(last[|last| - 1])
    ensures Items(text) == Split(text, ',')
  {
    NotAllBlank(last, |last| - 1);
  }

  /** A text with a non-blank character is not blank. */
  lemma {:induction false} NotAllBlank(t: string, i: nat)
    requires i < |t| && !IsBlank(t[i])
    ensures Trim(t, IsBlank) != ""
  {
  }

  /**
    literal_eval reads back what the finder writes: the text between the braces of str() on a
    non-empty set of ints gives the ints in the order they were written.
  */
  lemma {:induction false} ComponentRoundTrip(xs: seq<int>)
    requires |xs| > 0
    ensures ParseComponent(JoinInts(xs)) == Ok(xs)
  {
    var text := JoinInts(xs);
    JoinedPieces(xs);
    var pieces := Split(text, ',');
    JoinedPiecesParse(xs, pieces);
    ParseElementsAre(pieces, ParsePiece, xs);
    JoinedNotBlank(xs);
  }

  /** The first character of a text is the first character of its first piece, when that one is not empty. */
  lemma {:induction false} JoinText(text: string, pieces: seq<string>)
    requires pieces == Split(text, ',') && |pieces[0]| > 0
    ensures |text| > 0 && text[0] == pieces[0][0]
  {
    JoinSplit(text, ',');
    if |pieces| > 1 {
      assert Join(pieces, ',') == pieces[0] + [','] + Join(pieces[1..], ',');
    }
  }

  /** A text that is not blank reads as the values of its items. */
  lemma {:induction false} ComponentOfItems(text: string, xs: seq<int>)
    requires Trim(text, IsBlank) != "" && ParseElements(Items(text), ParsePiece) == Ok(xs)
    ensures ParseComponent(text) == Ok(xs)
  {
  }

  /** A single item without commas is the whole text. */
  lemma {:induction false} OneItem(t: string)
    requires ',' !in t && |t| > 0 && !IsBlank(t[0]) && !IsBlank(t[|t| - 1])
    ensures Trim(t, IsBlank) == t && Items(t) == [t]
  {
    TrimPadded("", t, "", IsBlank);
    assert "" + t + "" == t;
    SplitNone(t, ',');
  }

  /** A decimal literal with a leading zero and a non-zero digit is refused: [007] raises. */
  lemma {:induction false} LeadingZeroRefused()
    ensures ParseComponent("007").Err?
  {
    OneItem("007");
    assert !IsDecLiteral("007") by {
      assert "007"[0] == '0' && "007"[2] == '7';
    }
    ParseElementsFails(["007"], ParsePiece, 0);
  }

  /** A blank may follow the sign: [- 1] is [-1]. */
  lemma {:induction false} BlankAfterSign()
    ensures ParseComponent("- 1") == Ok([-1])
  {
    OneItem("- 1");
    var t := "- 1";
    assert SkipBlank(t, 1, IsBlank) == 2 by {
      assert IsBlank(t[1]) && !IsBlank(t[2]);
    }
    assert t[2..] == "1";
    assert IsDecLiteral("1") && DropUnderscores("1") == "1";
    assert DigitsValue("1") == 1 by {
      assert "1"[..0] == "";
    }
    ParseElementsAre(["- 1"], ParsePiece, [-1]);
  }

  lemma {:induction false} UnderscoreValue()
    ensures IsDecLiteral("1_000") && LiteralValue("1_000") == 1000
  {
    UnderscoreDropped();
    ThousandValue();
  }

  lemma {:induction false} UnderscoreDropped()
    ensures DropUnderscores("1_000") == "1000"
  {
    assert "1_000"[1..] == "_000" && "_000"[1..] == "000";
    assert DropUnderscores("000") == "000";
  }

  lemma {:induction false} ThousandValue()
    ensures DigitsValue("1000") == 1000
  {
    assert "1000"[..3] == "100" && "100"[..2] == "10" && "10"[..1] == "1" && "1"[..0] == "";
  }

  /** Underscores separate digits: [1_000] is [1000]. */
  lemma {:induction false} UnderscoreDigits()
    ensures ParseComponent("1_000") == Ok([1000])
  {
    OneItem("1_000");
    UnderscoreValue();
    UnsignedParse("1_000");
    ParseElementsAre(["1_000"], ParsePiece, [1000]);
    ComponentOfItems("1_000", [1000]);
  }

  /** One trailing comma is allowed: [1, 2,] is [1, 2], and so for every written component. */
  lemma {:induction false} TrailingComma(xs: seq<int>)
    requires |xs| > 0
    ensures ParseComponent(JoinInts(xs) + ",") == Ok(xs)
  {
    var text := JoinInts(xs);
    SplitTrailing(text, ',');
    JoinedPieces(xs);
    JoinedPiecesParse(xs, Split(text, ','));
    ParseElementsAre(Split(text, ','), ParsePiece, xs);
    IntStringEnds(xs[0]);
    JoinText(text, Split(text, ','));
    assert (text + ",")[0] == text[0];
    NotAllBlank(text + ",", 0);
    TrailingItem(text);
    ComponentOfItems(text + ",", xs);
  }

  /** A comma at the end of a text adds one empty piece. */
  lemma {:induction false} SplitTrailing(s: string, sep: char)
    ensures Split(s + [sep], sep) == Split(s, sep) + [""]
    decreases |s|
  {
    if |s| > 0 {
      assert (s + [sep])[1..] == s[1..] + [sep];
      SplitTrailing(s[1..], sep);
    }
  }

  /** The empty piece after a trailing comma is not an item. */
  lemma {:induction false} TrailingItem(text: string)
    ensures Items(text + ",") == Split(text, ',')
  {
    SplitTrailing(text, ',');
    var pieces := Split(text + ",", ',');
    assert pieces[|pieces| - 1] == "";
    assert Trim("", IsBlank) == "";
    assert pieces[..|pieces| - 1] == Split(text, ',');
  }

  /** An empty item is refused: [,] raises. */
  lemma {:induction false} EmptyItemRefused()
    ensures ParseComponent(",").Err?
  {
    assert "," == "" + [','] + "";
    SplitAfter("", ',', "");
    assert Split(",", ',') == ["", ""];
    assert !IsBlank(","[0]);
    assert Items(",") == [""];
    ParseElementsFails([""], ParsePiece, 0);
  }

  /** A line the validator reads as one component: after stripping, it starts with '{'. */
  predicate IsComponentLine(line: string) {
    var stripped := Strip(line);
    |stripped| > 0 && stripped[0] == '{'
  }

  // ---------------------------------------------------------------- the state machine

  /** What the validator writes for a step: the header, the line, both lists and the verdict. */
  datatype Report = Report(timeStep: string, lineNumber: nat, outList: seq<seq<int>>, dataList: seq<seq<int>>, matched: bool)

  datatype State = State(lineNumber: nat, currentTS: string, outList: seq<seq<int>>, dataList: seq<seq<int>>,
                         testFailed: bool, reports: seq<Report>)

  const Start := State(1, "", [], [], false, [])

  /**
    The component on this line of the output file and the one on the same line of the data
    file, each sorted.  A data file with no line at that number, or a component that is not a
    list of ints, raises.
  */
  function ReadComponents(stripped: string, lineNumber: nat, dataLines: seq<string>): (r: Result<(seq<int>, seq<int>)>)
    ensures r.Ok? ==> 1 <= lineNumber <= |dataLines|
    ensures r.Err? ==> r.error == ValueError || r.error == IndexOutOfRange(lineNumber - 1)
    ensures r.Ok? ==> ParseComponent(Inner(stripped)).Ok? && ParseComponent(Inner(Strip(dataLines[lineNumber - 1]))).Ok?
    ensures r.Ok? ==> multiset(r.value.0) == multiset(ParseComponent(Inner(stripped)).value)
    ensures r.Ok? ==> multiset(r.value.1) == multiset(ParseComponent(Inner(Strip(dataLines[lineNumber - 1]))).value)
    ensures r.Ok? ==> SortedBy(r.value.0, IntLe) && SortedBy(r.value.1, IntLe)
  {
    var componentOutput :- ParseComponent(Inner(stripped));
    if !(1 <= lineNumber <= |dataLines|) then Err(IndexOutOfRange(lineNumber - 1))
    else
      var componentData :- ParseComponent(Inner(Strip(dataLines[lineNumber - 1])));
      assert SortedBy(Sort(componentOutput, IntLe), IntLe) && SortedBy(Sort(componentData, IntLe), IntLe) by {
        IntLeTotal();
        SortSorted(componentOutput, IntLe);
        SortSorted(componentData, IntLe);
      }
      Ok((Sort(componentOutput, IntLe), Sort(componentData, IntLe)))
  }

  /**
    A line that is not a component closes the step: when either list holds anything, write a
    record, which matches when both lists hold the same components the same number of times
    (what sorted(outList) == sorted(dataList) decides, by SortEqIffPermutation), set testFailed
    when it does not match, and empty both lists.
  */
  function CloseStep(s: State, ts: string): (r: State)
    ensures r.lineNumber == s.lineNumber + 1 && r.currentTS == ts
    ensures r.outList == [] && r.dataList == []
    ensures (|s.outList| > 0 || |s.dataList| > 0) ==> |r.reports| == |s.reports| + 1
    ensures !(|s.outList| > 0 || |s.dataList| > 0) ==> r.reports == s.reports && r.testFailed == s.testFailed
  {
    if |s.outList| > 0 || |s.dataList| > 0 then
      var matched := multiset(s.outList) == multiset(s.dataList);
      State(s.lineNumber + 1, ts, [], [], s.testFailed || !matched, s.reports + [Report(ts, s.lineNumber, s.outList, s.dataList, matched)])
    else s.(lineNumber := s.lineNumber + 1, currentTS := ts)
  }

  /** One pass of the loop body; a blank line fails on strippedLine[0]. */
  function Step(s: State, line: string, dataLines: seq<string>): (r: Result<State>)
    ensures |Strip(line)| == 0 ==> r == Err(BlankLine(s.lineNumber))
    ensures r.Err? && r.error.BlankLine? ==> Strip(line) == "" && r.error.lineNumber == s.lineNumber
    ensures r.Ok? ==> |Strip(line)| > 0 && r.value.lineNumber == s.lineNumber + 1
    ensures r.Ok? && !IsComponentLine(line) ==> r.value == CloseStep(s, if StartsWith(Strip(line), "ts_") then Strip(line) else s.currentTS)
    ensures r.Ok? && IsComponentLine(line) ==> ReadComponents(Strip(line), s.lineNumber, dataLines).Ok?
    ensures r.Ok? && IsComponentLine(line) ==>
      var (out, data) := ReadComponents(Strip(line), s.lineNumber, dataLines).value;
      r.value == s.(lineNumber := s.lineNumber + 1, currentTS := if StartsWith(Strip(line), "ts_") then Strip(line) else s.currentTS,
                    outList := s.outList + [out], dataList := s.dataList + [data])
  {
    var stripped := Strip(line);
    var ts := if StartsWith(stripped, "ts_") then stripped else s.currentTS;
    if |stripped| == 0 then Err(BlankLine(s.lineNumber))
    else if stripped[0] == '{' then
      var (out, data) :- ReadComponents(stripped, s.lineNumber, dataLines);
      Ok(State(s.lineNumber + 1, ts, s.outList + [out], s.dataList + [data], s.testFailed, s.reports))
    else Ok(CloseStep(s, ts))
  }

  /** The state after the given lines of the output file; the first raising line stops the run. */
  function Run(lines: seq<string>, dataLines: seq<string>): (r: Result<State>)
    ensures r.Ok? ==> r.value.lineNumber == |lines| + 1
    decreases |lines|
  {
    if |lines| == 0 then Ok(Start)
    else
      var s :- Run(lines[..|lines| - 1], dataLines);
      Step(s, lines[|lines| - 1], dataLines)
  }

  /** A run that stops at a blank line names a line of the file that strips to nothing. */
  lemma {:induction false} BlankLineError(lines: seq<string>, dataLines: seq<string>)
    requires Run(lines, dataLines).Err? && Run(lines, dataLines).error.BlankLine?
    ensures 1 <= Run(lines, dataLines).error.lineNumber <= |lines|
    ensures Strip(lines[Run(lines, dataLines).error.lineNumber - 1]) == ""
    decreases |lines|
  {
    var prefix := lines[..|lines| - 1];
    if Run(prefix, dataLines).Err? {
      BlankLineError(prefix, dataLines);
      BlankLineEarlier(lines, dataLines);
    } else {
      BlankLineLast(lines, dataLines);
    }
  }

  /** A blank line met before the last line is a line of the whole file. */
  lemma {:induction false} BlankLineEarlier(lines: seq<string>, dataLines: seq<string>)
    requires |lines| > 0 && Run(lines[..|lines| - 1], dataLines).Err?
    requires Run(lines[..|lines| - 1], dataLines).error.BlankLine?
    requires 1 <= Run(lines[..|lines| - 1], dataLines).error.lineNumber <= |lines| - 1
    requires Strip(lines[..|lines| - 1][Run(lines[..|lines| - 1], dataLines).error.lineNumber - 1]) == ""
    ensures Run(lines, dataLines) == Run(lines[..|lines| - 1], dataLines)
    ensures Strip(lines[Run(lines, dataLines).error.lineNumber - 1]) == ""
  {
    var n := |lines| - 1;
    RunPrefixErr(lines, n, dataLines);
    var k := Run(lines[..n], dataLines).error.lineNumber;
    assert lines[..n][k - 1] == lines[k - 1];
  }

  /** A blank line met at the last line is that line. */
  lemma {:induction false} BlankLineLast(lines: seq<string>, dataLines: seq<string>)
    requires |lines| > 0 && Run(lines[..|lines| - 1], dataLines).Ok?
    requires Run(lines, dataLines).Err? && Run(lines, dataLines).error.BlankLine?
    ensures Run(lines, dataLines).error.lineNumber == |lines|
    ensures Strip(lines[|lines| - 1]) == ""
  {
    var n := |lines| - 1;
    RunSnoc(lines, n, dataLines);
    assert lines[..n + 1] == lines;
  }

  /**
    main without the file handling: outLines are the lines of the output file, dataLines those
    of the synthetic data file; the result is testFailed and the records written to the test
    result file, one per compared step.
  */
  method Validate(outLines: seq<string>, dataLines: seq<string>) returns (r: Result<(bool, seq<Report>)>)
    ensures r.Err? <==> Run(outLines, dataLines).Err?
    ensures r.Err? ==> r.error == Run(outLines, dataLines).error
    ensures r.Ok? ==> r.value == (Run(outLines, dataLines).value.testFailed, Run(outLines, dataLines).value.reports)
  {
    var testFailed := false;
    var lineNumber: nat := 1;
    var testResult: seq<Report> := [];
    var outPutComponentList: seq<seq<int>> := [];
    var dataComponentList: seq<seq<int>> := [];
    var currentTS := "";
    for k := 0 to |outLines|
      invariant Run(outLines[..k], dataLines) ==
        Ok(State(lineNumber, currentTS, outPutComponentList, dataComponentList, testFailed, testResult))
    {
      ghost var s0 := State(lineNumber, currentTS, outPutComponentList, dataComponentList, testFailed, testResult);
      RunSnoc(outLines, k, dataLines);
      ghost var next := Step(s0, outLines[k], dataLines);
      var strippedLine := Strip(outLines[k]);
      if StartsWith(strippedLine, "ts_") {
        currentTS := strippedLine;
      }
      if |strippedLine| == 0 {
        RunPrefixErr(outLines, k + 1, dataLines);
        return Err(BlankLine(lineNumber));
      }
      if strippedLine[0] == '{' {
        var components := ReadComponents(strippedLine, lineNumber, dataLines);
        if components.Err? {
          assert next == Err(components.error);
          RunPrefixErr(outLines, k + 1, dataLines);
          return Err(components.error);
        }
        var (componentOutput, componentData) := components.value;
        outPutComponentList := outPutComponentList + [componentOutput];
        dataComponentList := dataComponentList + [componentData];
      } else {
        assert next == Ok(CloseStep(s0, currentTS));
        if |outPutComponentList| > 0 || |dataComponentList| > 0 {
          var matched := Sort(outPutComponentList, LexLe) == Sort(dataComponentList, LexLe);
          LexLeTotal();
          SortEqIffPermutation(outPutComponentList, dataComponentList, LexLe);
          testResult := testResult + [Report(currentTS, lineNumber, outPutComponentList, dataComponentList, matched)];
          if !matched {
            testFailed := true;
          }
          outPutComponentList := [];
          dataComponentList := [];
        }
      }
      lineNumber := lineNumber + 1;
    }
    assert outLines[..|outLines|] == outLines;
    return Ok((testFailed, testResult));
  }

  /** One more line: the run over lines[..k + 1] is one step from the run over lines[..k]. */
  lemma {:induction false} RunSnoc(lines: seq<string>, k: nat, dataLines: seq<string>)
    requires k < |lines| && Run(lines[..k], dataLines).Ok?
    ensures Run(lines[..k + 1], dataLines) == Step(Run(lines[..k], dataLines).value, lines[k], dataLines)
  {
    assert lines[..k + 1][..k] == lines[..k];
  }

  /** The first raising line stops the run: its error is the run's error. */
  lemma {:induction false} RunPrefixErr(lines: seq<string>, n: nat, dataLines: seq<string>)
    requires n <= |lines| && Run(lines[..n], dataLines).Err?
    ensures Run(lines, dataLines) == Run(lines[..n], dataLines)
    decreases |lines|
  {
    if n < |lines| {
      var init := lines[..|lines| - 1];
      assert init[..n] == lines[..n];
      RunPrefixErr(init, n, dataLines);
    } else {
      assert lines[..n] == lines;
    }
  }

  // ---------------------------------------------------------------- what the run promises

  /** Run unfolded once: the last line is one more step from the state the lines before it leave. */
  lemma {:induction false} RunLast(lines: seq<string>, dataLines: seq<string>)
    requires |lines| > 0 && Run(lines, dataLines).Ok?
    ensures Run(lines[..|lines| - 1], dataLines).Ok?
    ensures Run(lines, dataLines) == Step(Run(lines[..|lines| - 1], dataLines).value, lines[|lines| - 1], dataLines)
    ensures |Strip(lines[|lines| - 1])| > 0
  {
  }

  /** The line at index i of a run that gets through is not blank. */
  lemma {:induction false} NotBlankAt(lines: seq<string>, dataLines: seq<string>, i: nat)
    requires Run(lines, dataLines).Ok? && i < |lines|
    ensures |Strip(lines[i])| > 0
    decreases |lines|
  {
    var init := lines[..|lines| - 1];
    RunLast(lines, dataLines);
    if i < |init| {
      NotBlankAt(init, dataLines, i);
      assert init[i] == lines[i];
    } else {
      assert i == |lines| - 1;
    }
  }

  /** A run that gets through its lines met no blank line, and counted every line. */
  lemma {:induction false} NoBlankLines(lines: seq<string>, dataLines: seq<string>)
    requires Run(lines, dataLines).Ok?
    ensures forall i :: 0 <= i < |lines| ==> |Strip(lines[i])| > 0
    ensures Run(lines, dataLines).value.lineNumber == |lines| + 1
    decreases |lines|
  {
    forall i | 0 <= i < |lines|
      ensures |Strip(lines[i])| > 0
    {
      NotBlankAt(lines, dataLines, i);
    }
    if |lines| > 0 {
      RunLast(lines, dataLines);
      NoBlankLines(lines[..|lines| - 1], dataLines);
    }
  }

  /** testFailed records whether some record so far is a mismatch. */
  ghost predicate FailedIffMismatch(s: State) {
    s.testFailed <==> exists k :: 0 <= k < |s.reports| && !s.reports[k].matched
  }

  lemma {:induction false} StepKeepsFailed(s0: State, line: string, dataLines: seq<string>)
    requires FailedIffMismatch(s0) && Step(s0, line, dataLines).Ok?
    ensures FailedIffMismatch(Step(s0, line, dataLines).value)
  {
    var s := Step(s0, line, dataLines).value;
    if IsComponentLine(line) {
      assert s.reports == s0.reports && s.testFailed == s0.testFailed;
    } else if |s0.outList| > 0 || |s0.dataList| > 0 {
      var last := s.reports[|s0.reports|];
      assert s.reports == s0.reports + [last];
      assert s.testFailed == (s0.testFailed || !last.matched);
      assert forall k :: 0 <= k < |s0.reports| ==> s.reports[k] == s0.reports[k];
    } else {
      assert s.reports == s0.reports && s.testFailed == s0.testFailed;
    }
  }

  /** testFailed is set exactly when some compared step did not match, and is never reset. */
  lemma {:induction false} FailedIffSomeMismatch(lines: seq<string>, dataLines: seq<string>)
    requires Run(lines, dataLines).Ok?
    ensures var s := Run(lines, dataLines).value;
      s.testFailed <==> exists k :: 0 <= k < |s.reports| && !s.reports[k].matched
    decreases |lines|
  {
    if |lines| > 0 {
      var init := lines[..|lines| - 1];
      RunLast(lines, dataLines);
      FailedIffSomeMismatch(init, dataLines);
      StepKeepsFailed(Run(init, dataLines).value, lines[|lines| - 1], dataLines);
    }
  }

  /** Every element of every listed component is sorted. */
  ghost predicate AllSorted(cs: seq<seq<int>>) {
    forall c :: c in cs ==> SortedBy(c, IntLe)
  }

  /** A record compares lists one of which is non-empty, and says whether they are permutations. */
  ghost predicate SoundReport(rep: Report) {
    && (|rep.outList| > 0 || |rep.dataList| > 0)
    && (rep.matched <==> multiset(rep.outList) == multiset(rep.dataList))
    && AllSorted(rep.outList) && AllSorted(rep.dataList)
  }

  /** Every record so far is sound and the components read in the open step are sorted. */
  ghost predicate SoundState(s: State) {
    && (forall k :: 0 <= k < |s.reports| ==> SoundReport(s.reports[k]))
    && AllSorted(s.outList) && AllSorted(s.dataList)
  }

  lemma {:induction false} StepKeepsSound(s0: State, line: string, dataLines: seq<string>)
    requires SoundState(s0) && Step(s0, line, dataLines).Ok?
    ensures SoundState(Step(s0, line, dataLines).value)
  {
    var s := Step(s0, line, dataLines).value;
    if IsComponentLine(line) {
      var (out, data) := ReadComponents(Strip(line), s0.lineNumber, dataLines).value;
      assert s.outList == s0.outList + [out] && s.dataList == s0.dataList + [data];
      assert s.reports == s0.reports;
    } else if |s0.outList| > 0 || |s0.dataList| > 0 {
      var last := s.reports[|s0.reports|];
      assert s.reports == s0.reports + [last];
      assert SoundReport(last);
    }
  }

  /**
    Every record compares non-empty lists of sorted components, and says Match exactly when
    the two lists hold the same components the same number of times, whatever their order.
  */
  lemma {:induction false} ReportsCompareMultisets(lines: seq<string>, dataLines: seq<string>)
    requires Run(lines, dataLines).Ok?
    ensures var s := Run(lines, dataLines).value;
      && (forall k :: 0 <= k < |s.reports| ==> SoundReport(s.reports[k]))
      && AllSorted(s.outList) && AllSorted(s.dataList)
    decreases |lines|
  {
    if |lines| > 0 {
      var init := lines[..|lines| - 1];
      RunLast(lines, dataLines);
      ReportsCompareMultisets(init, dataLines);
      StepKeepsSound(Run(init, dataLines).value, lines[|lines| - 1], dataLines);
    }
  }

  /**
    Components read after the last non-component line are never compared: lines that are all
    component lines change neither the records nor testFailed.
  */
  lemma {:induction false} TrailingNeverCompared(lines: seq<string>, tail: seq<string>, dataLines: seq<string>)
    requires forall i :: 0 <= i < |tail| ==> IsComponentLine(tail[i])
    requires Run(lines + tail, dataLines).Ok?
    ensures Run(lines, dataLines).Ok?
    ensures Run(lines + tail, dataLines).value.reports == Run(lines, dataLines).value.reports
    ensures Run(lines + tail, dataLines).value.testFailed == Run(lines, dataLines).value.testFailed
    decreases |tail|
  {
    if |tail| > 0 {
      var all := lines + tail;
      var init := tail[..|tail| - 1];
      assert all[..|all| - 1] == lines + init;
      assert all[|all| - 1] == tail[|tail| - 1];
      assert forall i :: 0 <= i < |init| ==> init[i] == tail[i];
      RunLast(all, dataLines);
      TrailingNeverCompared(lines, init, dataLines);
    } else {
      assert lines + tail == lines;
    }
  }

  /** Reading the same nodes in another order gives the same stored component. */
  lemma {:induction false} NodeOrderIrrelevant(a: seq<int>, b: seq<int>)
    requires multiset(a) == multiset(b)
    ensures Sort(a, IntLe) == Sort(b, IntLe)
  {
    IntLeTotal();
    SortEqIffPermutation(a, b, IntLe);
  }
}
