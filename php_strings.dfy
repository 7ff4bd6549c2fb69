/**
 * The PHP string built-ins that the upload controller relies on, over byte
 * strings: `str_replace`, `trim`, `empty` on a string, and the conversion of
 * a non-negative integer to its decimal string.
 *
 * A PHP string is a sequence of bytes. A byte is modelled by the char with
 * the same code point, so string literals can be written as usual.
 */
module PhpStrings {

  type Byte = c: char | c <= '\U{FF}'
  type Bytes = seq<Byte>

  /** `s` with every byte of `cs` taken out, the others kept in order. */
  function Without(s: Bytes, cs: set<Byte>): (r: Bytes)
    ensures |r| <= |s|
    ensures forall b :: b in r ==> b in s && b !in cs
  {
    if s == [] then []
    else (if s[0] in cs then [] else [s[0]]) + Without(s[1..], cs)
  }

  lemma {:induction false} WithoutAppend(a: Bytes, b: Bytes, cs: set<Byte>)
    ensures Without(a + b, cs) == Without(a, cs) + Without(b, cs)
  {
    if a == [] {
      assert a + b == b;
    } else {
      assert (a + b)[0] == a[0];
      assert (a + b)[1..] == a[1..] + b;
      WithoutAppend(a[1..], b, cs);
    }
  }

  /** Removing bytes that all belong to `cs` leaves nothing behind. */
  lemma {:induction false} WithoutOnlyRemoved(s: Bytes, cs: set<Byte>)
    requires forall i :: 0 <= i < |s| ==> s[i] in cs
    ensures Without(s, cs) == []
  {
    if s != [] {
      WithoutOnlyRemoved(s[1..], cs);
    }
  }

  /**
   * `str_replace($search, $replace, $subject)` for one search string: the
   * subject is scanned left to right, each occurrence of `search` is replaced
   * and the scan resumes after it, so occurrences never overlap and text
   * produced by a replacement is never scanned again. An empty search string
   * leaves the subject unchanged.
   */
  function StrReplace(subject: Bytes, search: Bytes, replace: Bytes): (r: Bytes)
    ensures replace == [] ==> |r| <= |subject|
    ensures forall b :: b in r ==> b in subject || b in replace
    decreases |subject|
  {
    if search == [] || |subject| < |search| then subject
    else if subject[..|search|] == search then replace + StrReplace(subject[|search|..], search, replace)
    else [subject[0]] + StrReplace(subject[1..], search, replace)
  }

  /** A subject in which the search string cannot start is returned as it is. */
  lemma {:induction false} StrReplaceAbsent(subject: Bytes, search: Bytes, replace: Bytes)
    requires search != [] && search[0] !in subject
    ensures StrReplace(subject, search, replace) == subject
  {
    if |subject| >= |search| {
      assert subject[..|search|][0] == subject[0];
      StrReplaceAbsent(subject[1..], search, replace);
    }
  }

  /** Replacing one byte by one byte is a byte-by-byte substitution. */
  lemma {:induction false} StrReplaceByte(subject: Bytes, search: Bytes, replace: Bytes)
    requires |search| == 1 && |replace| == 1
    ensures var r := StrReplace(subject, search, replace);
      && |r| == |subject|
      && forall i :: 0 <= i < |r| ==> r[i] == (if subject[i] == search[0] then replace[0] else subject[i])
  {
    if subject != [] {
      StrReplaceByte(subject[1..], search, replace);
      if subject[..1] == search {
        assert subject[0] == search[0];
      } else {
        assert subject[0] != search[0] by { assert subject[..1] == [subject[0]]; }
      }
    }
  }

  /**
   * Deleting a search string only removes bytes that occur in it: every
   * byte of the subject outside `cs`, a set holding all bytes of `search`,
   * survives in its original order.
   */
  lemma {:induction false} StrReplaceDeleteKeepsOthers(subject: Bytes, search: Bytes, cs: set<Byte>)
    requires forall i :: 0 <= i < |search| ==> search[i] in cs
    ensures Without(StrReplace(subject, search, []), cs) == Without(subject, cs)
    decreases |subject|
  {
    if search == [] || |subject| < |search| {
    } else if subject[..|search|] == search {
      var rest := subject[|search|..];
      calc {
        Without(StrReplace(subject, search, []), cs);
        { assert StrReplace(subject, search, []) == StrReplace(rest, search, []); }
        Without(StrReplace(rest, search, []), cs);
        { StrReplaceDeleteKeepsOthers(rest, search, cs); }
        Without(rest, cs);
        { WithoutOnlyRemoved(search, cs); }
        Without(search, cs) + Without(rest, cs);
        { WithoutAppend(search, rest, cs);
          assert subject == search + rest; }
        Without(subject, cs);
      }
    } else {
      StrReplaceDeleteKeepsOthers(subject[1..], search, cs);
      assert StrReplace(subject, search, []) == [subject[0]] + StrReplace(subject[1..], search, []);
      WithoutAppend([subject[0]], StrReplace(subject[1..], search, []), cs);
      WithoutAppend([subject[0]], subject[1..], cs);
      assert subject == [subject[0]] + subject[1..];
    }
  }

  /** `ltrim($s, $chars)`: the longest prefix made of bytes in `chars` is dropped. */
  function LTrim(s: Bytes, chars: set<Byte>): (r: Bytes)
    ensures |r| <= |s| && r == s[|s| - |r|..]
    ensures forall i :: 0 <= i < |s| - |r| ==> s[i] in chars
    ensures r != [] ==> r[0] !in chars
  {
    if s != [] && s[0] in chars then LTrim(s[1..], chars) else s
  }

  /** `rtrim($s, $chars)`: the longest suffix made of bytes in `chars` is dropped. */
  function RTrim(s: Bytes, chars: set<Byte>): (r: Bytes)
    ensures |r| <= |s| && r == s[..|r|]
    ensures forall i :: |r| <= i < |s| ==> s[i] in chars
    ensures r != [] ==> r[|r| - 1] !in chars
  {
    if s != [] && s[|s| - 1] in chars then RTrim(s[..|s| - 1], chars) else s
  }

  /**
   * `trim($s, $chars)`: the result neither starts nor ends with a byte of
   * `chars`, and it was obtained by removing such bytes only.
   */
  function Trim(s: Bytes, chars: set<Byte>): (r: Bytes)
    ensures |r| <= |s|
    ensures r != [] ==> r[0] !in chars && r[|r| - 1] !in chars
  {
    RTrim(LTrim(s, chars), chars)
  }

  lemma {:induction false} LTrimOnlyRemoves(s: Bytes, chars: set<Byte>)
    ensures Without(LTrim(s, chars), chars) == Without(s, chars)
  {
    if s != [] && s[0] in chars {
      LTrimOnlyRemoves(s[1..], chars);
    }
  }

  lemma {:induction false} RTrimOnlyRemoves(s: Bytes, chars: set<Byte>)
    ensures Without(RTrim(s, chars), chars) == Without(s, chars)
  {
    if s != [] && s[|s| - 1] in chars {
      var init := s[..|s| - 1];
      RTrimOnlyRemoves(init, chars);
      assert s == init + [s[|s| - 1]];
      WithoutAppend(init, [s[|s| - 1]], chars);
    }
  }

  /** Trimming removes bytes of `chars` only: every other byte survives, in order. */
  lemma TrimOnlyRemoves(s: Bytes, chars: set<Byte>)
    ensures Without(Trim(s, chars), chars) == Without(s, chars)
  {
    LTrimOnlyRemoves(s, chars);
    RTrimOnlyRemoves(LTrim(s, chars), chars);
  }

  /** A string that does not start or end with a byte of `chars` is not changed by trimming. */
  lemma TrimUnchanged(s: Bytes, chars: set<Byte>)
    requires s != [] ==> s[0] !in chars && s[|s| - 1] !in chars
    ensures Trim(s, chars) == s
  {
  }

  /** Trimming leaves nothing exactly when every byte is one of `chars`: what makes a string blank. */
  lemma TrimBlank(s: Bytes, chars: set<Byte>)
    ensures Trim(s, chars) == [] <==> forall i :: 0 <= i < |s| ==> s[i] in chars
  {
    var l := LTrim(s, chars);
    var r := RTrim(l, chars);
    if r != [] {
      assert r[0] == l[0] == s[|s| - |l|];
    } else {
      assert l == [];
    }
  }

  /** PHP's `empty()` on a string: true for "" and for "0". */
  predicate PhpEmpty(s: Bytes)
  {
    s == [] || s == "0"
  }

  predicate IsDigit(b: Byte)
  {
    '0' <= b <= '9'
  }

  function DigitByte(d: nat): (b: Byte)
    requires d < 10
    ensures IsDigit(b) && b as int - '0' as int == d
  {
    ('0' as int + d) as char
  }

  /** PHP's conversion of a non-negative integer to a string, as done by `.` on `time()`. */
  function Decimal(n: nat): (r: Bytes)
    ensures r != []
    ensures forall i :: 0 <= i < |r| ==> IsDigit(r[i])
  {
    if n < 10 then [DigitByte(n)] else Decimal(n / 10) + [DigitByte(n % 10)]
  }

  /** The value of a string of decimal digits. */
  function DecimalValue(s: Bytes): nat
    requires forall i :: 0 <= i < |s| ==> IsDigit(s[i])
  {
    if s == [] then 0
    else
      var last := s[|s| - 1];
      assert IsDigit(last);
      10 * DecimalValue(s[..|s| - 1]) + (last as int - '0' as int)
  }

  /** Reading back the decimal string of `n` gives `n`. */
  lemma {:induction false} DecimalRoundTrip(n: nat)
    ensures DecimalValue(Decimal(n)) == n
  {
    if n >= 10 {
      var r := Decimal(n);
      assert r[..|r| - 1] == Decimal(n / 10);
      DecimalRoundTrip(n / 10);
    }
  }

  /** Distinct integers have distinct decimal strings. */
  lemma DecimalInjective(m: nat, n: nat)
    requires Decimal(m) == Decimal(n)
    ensures m == n
  {
    DecimalRoundTrip(m);
    DecimalRoundTrip(n);
  }
}
