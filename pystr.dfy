/**
 * The Python string built-ins the core relies on, with their Python meaning:
 * `str.split(sep, maxsplit)`, `str.split()`, `sep.join(parts)`, `int(text)`,
 * the `in` test on text, and the slices `xs[:j]` and `xs[1:3]`.
 */
module PyStr {
  import opened Results

  // ---------------------------------------------------------------- split

  /** Split budget left after one split: a negative budget stays unlimited. */
  function NextBudget(maxsplit: int): int {
    if maxsplit < 0 then maxsplit else maxsplit - 1
  }

  /** `sep.join(parts)`. */
  function Join(parts: seq<string>, sep: string): string {
    if |parts| == 0 then ""
    else if |parts| == 1 then parts[0]
    else parts[0] + sep + Join(parts[1..], sep)
  }

  /**
   * `s.split(sep, maxsplit)` for a non-empty separator, scanning left to right;
   * a negative `maxsplit` means no limit.
   */
  function SplitMax(s: string, sep: string, maxsplit: int): (r: seq<string>)
    requires |sep| > 0
    ensures |r| >= 1
    ensures maxsplit >= 0 ==> |r| <= maxsplit + 1
    decreases |s|
  {
    if maxsplit == 0 || |s| < |sep| then [s]
    else if s[..|sep|] == sep then [""] + SplitMax(s[|sep|..], sep, NextBudget(maxsplit))
    else
      var rest := SplitMax(s[1..], sep, maxsplit);
      [[s[0]] + rest[0]] + rest[1..]
  }

  /** Joining a leading piece in front of at least one more. */
  lemma JoinCons(p: string, rest: seq<string>, sep: string)
    requires |rest| >= 1
    ensures Join([p] + rest, sep) == p + sep + Join(rest, sep)
  {
    assert ([p] + rest)[1..] == rest;
  }

  /** Growing the first piece grows the joined text at its front. */
  lemma {:induction false} JoinGrowFirst(c: char, parts: seq<string>, sep: string)
    requires |parts| >= 1
    ensures Join([[c] + parts[0]] + parts[1..], sep) == [c] + Join(parts, sep)
  {
    if |parts| > 1 {
      JoinCons([c] + parts[0], parts[1..], sep);
      JoinCons(parts[0], parts[1..], sep);
      assert [parts[0]] + parts[1..] == parts;
    }
  }

  /** The pieces of a split, joined with the separator, give the text back. */
  lemma {:induction false} JoinSplit(s: string, sep: string, maxsplit: int)
    requires |sep| > 0
    ensures Join(SplitMax(s, sep, maxsplit), sep) == s
    decreases |s|
  {
    if maxsplit == 0 || |s| < |sep| {
    } else if s[..|sep|] == sep {
      var rest := SplitMax(s[|sep|..], sep, NextBudget(maxsplit));
      JoinSplit(s[|sep|..], sep, NextBudget(maxsplit));
      JoinCons("", rest, sep);
      assert s == sep + s[|sep|..];
    } else {
      var rest := SplitMax(s[1..], sep, maxsplit);
      JoinSplit(s[1..], sep, maxsplit);
      JoinGrowFirst(s[0], rest, sep);
      assert s == [s[0]] + s[1..];
    }
  }

  /** `sub in s` for text. */
  predicate Contains(s: string, sub: string) {
    exists i :: 0 <= i <= |s| - |sub| && OccursAt(s, sub, i)
  }

  /** Does `sub` occur in `s` starting at index `i`? */
  predicate OccursAt(s: string, sub: string, i: int) {
    0 <= i <= |s| - |sub| && s[i..i + |sub|] == sub
  }

  /** Splitting text in which the separator never occurs yields the text alone. */
  lemma {:induction false} SplitAbsent(s: string, sep: string, maxsplit: int)
    requires |sep| > 0 && !Contains(s, sep)
    ensures SplitMax(s, sep, maxsplit) == [s]
    decreases |s|
  {
    if maxsplit != 0 && |s| >= |sep| {
      assert !OccursAt(s, sep, 0);
      assert !Contains(s[1..], sep) by {
        forall i | OccursAt(s[1..], sep, i)
          ensures false
        {
          assert s[1..][i..i + |sep|] == s[i + 1..i + 1 + |sep|];
          assert OccursAt(s, sep, i + 1);
        }
      }
      SplitAbsent(s[1..], sep, maxsplit);
      assert [s[0]] + s[1..] == s;
    }
  }

  /** A one-character separator absent from `a`: the first piece is `a`. */
  lemma {:induction false} SplitAtFirst(a: string, c: char, b: string, maxsplit: int)
    requires c !in a && maxsplit != 0
    ensures SplitMax(a + [c] + b, [c], maxsplit) == [a] + SplitMax(b, [c], NextBudget(maxsplit))
    decreases |a|
  {
    var s := a + [c] + b;
    if |a| == 0 {
      assert s[..1] == [c] && s[1..] == b;
    } else {
      assert s[..1] == [a[0]] && a[0] != c;
      assert s[1..] == a[1..] + [c] + b;
      SplitAtFirst(a[1..], c, b, maxsplit);
      assert [a[0]] + a[1..] == a;
    }
  }

  /** Splitting on a character the text lacks yields the text alone. */
  lemma {:induction false} SplitWithout(a: string, c: char, maxsplit: int)
    requires c !in a
    ensures SplitMax(a, [c], maxsplit) == [a]
    decreases |a|
  {
    if maxsplit != 0 && |a| >= 1 {
      assert a[..1] == [a[0]] && a[0] != c;
      SplitWithout(a[1..], c, maxsplit);
      assert [a[0]] + a[1..] == a;
    }
  }

  /** One step of an unlimited split on a one-character separator. */
  lemma SplitStep(s: string, c: char)
    requires |s| >= 1
    ensures var tail := SplitMax(s[1..], [c], -1);
      SplitMax(s, [c], -1) == if s[0] == c then [""] + tail else [[s[0]] + tail[0]] + tail[1..]
  {
    assert s[..1] == [s[0]];
  }

  /** An unlimited split distributes over a separator occurrence. */
  lemma {:induction false} SplitConcat(a: string, c: char, b: string)
    ensures SplitMax(a + [c] + b, [c], -1) == SplitMax(a, [c], -1) + SplitMax(b, [c], -1)
    decreases |a|
  {
    var s := a + [c] + b;
    SplitStep(s, c);
    if |a| == 0 {
      assert s[1..] == b;
    } else {
      assert s[1..] == a[1..] + [c] + b;
      SplitConcat(a[1..], c, b);
      SplitStep(a, c);
      var tailA := SplitMax(a[1..], [c], -1);
      var whole := tailA + SplitMax(b, [c], -1);
      if a[0] != c {
        assert whole[0] == tailA[0] && whole[1..] == tailA[1..] + SplitMax(b, [c], -1);
      }
    }
  }

  /** Does the character occur in none of the pieces? */
  predicate Avoids(parts: seq<string>, c: char) {
    forall k :: 0 <= k < |parts| ==> c !in parts[k]
  }

  /** Splitting a join with enough budget gives the pieces back. */
  lemma {:induction false} SplitJoin(parts: seq<string>, c: char, maxsplit: int)
    requires |parts| >= 1 && Avoids(parts, c)
    requires maxsplit < 0 || maxsplit >= |parts| - 1
    ensures SplitMax(Join(parts, [c]), [c], maxsplit) == parts
    decreases |parts|
  {
    if |parts| == 1 {
      SplitWithout(parts[0], c, maxsplit);
    } else {
      SplitAtFirst(parts[0], c, Join(parts[1..], [c]), maxsplit);
      SplitJoin(parts[1..], c, NextBudget(maxsplit));
      assert [parts[0]] + parts[1..] == parts;
    }
  }

  /** With a budget of exactly `|parts|` splits, everything after the last one is one piece. */
  lemma {:induction false} SplitJoinThenTail(parts: seq<string>, c: char, tail: string)
    requires |parts| >= 1 && Avoids(parts, c)
    ensures SplitMax(Join(parts, [c]) + [c] + tail, [c], |parts|) == parts + [tail]
    decreases |parts|
  {
    if |parts| == 1 {
      SplitAtFirst(parts[0], c, tail, 1);
    } else {
      var rest := Join(parts[1..], [c]) + [c] + tail;
      assert Join(parts, [c]) + [c] + tail == parts[0] + [c] + rest;
      SplitAtFirst(parts[0], c, rest, |parts|);
      SplitJoinThenTail(parts[1..], c, tail);
      assert [parts[0]] + parts[1..] == parts;
    }
  }

  /** A character that is neither the separator nor in any piece is not in the join. */
  lemma {:induction false} JoinAvoids(parts: seq<string>, sep: char, c: char)
    requires Avoids(parts, c) && c != sep
    ensures c !in Join(parts, [sep])
    decreases |parts|
  {
    if |parts| > 1 {
      JoinAvoids(parts[1..], sep, c);
    }
  }

  /** An unlimited split has at least two pieces exactly when the separator occurs. */
  lemma {:induction false} SplitFindsSeparator(s: string, c: char)
    ensures |SplitMax(s, [c], -1)| >= 2 <==> c in s
    decreases |s|
  {
    if |s| >= 1 {
      SplitFindsSeparator(s[1..], c);
      assert s[..1] == [s[0]];
      assert c in s <==> s[0] == c || c in s[1..];
    }
  }

  // ------------------------------------------------------ whitespace split

  /** `ch.isspace()`: the characters `str.split()` treats as blanks. */
  predicate IsSpace(ch: char) {
    var n := ch as int;
    (0x09 <= n <= 0x0D) || (0x1C <= n <= 0x20) || n == 0x85 || n == 0xA0 || n == 0x1680 ||
    (0x2000 <= n <= 0x200A) || n == 0x2028 || n == 0x2029 || n == 0x202F || n == 0x205F || n == 0x3000
  }

  /** A token of `str.split()`: non-empty and blank-free. */
  predicate IsWord(w: string) {
    |w| > 0 && forall k :: 0 <= k < |w| ==> !IsSpace(w[k])
  }

  /** Length of the leading run of non-blank characters. */
  function WordLength(s: string): (n: nat)
    ensures n <= |s|
    ensures forall k :: 0 <= k < n ==> !IsSpace(s[k])
    ensures n < |s| ==> IsSpace(s[n])
    decreases |s|
  {
    if |s| == 0 || IsSpace(s[0]) then 0 else 1 + WordLength(s[1..])
  }

  /** `s.split()`: the maximal runs of non-blank characters, in order. */
  function Tokens(s: string): (r: seq<string>)
    ensures forall k :: 0 <= k < |r| ==> IsWord(r[k])
    decreases |s|
  {
    if |s| == 0 then []
    else if IsSpace(s[0]) then Tokens(s[1..])
    else
      var n := WordLength(s);
      [s[..n]] + Tokens(s[n..])
  }

  lemma {:induction false} WordLengthOfWord(w: string, rest: string)
    requires IsWord(w) && (rest == [] || IsSpace(rest[0]))
    ensures WordLength(w + rest) == |w|
    decreases |w|
  {
    if |w| > 1 {
      assert (w + rest)[1..] == w[1..] + rest;
      WordLengthOfWord(w[1..], rest);
    } else {
      assert (w + rest)[1..] == rest;
    }
  }

  /** Splitting words joined by single spaces gives the words back. */
  /** A blank before the text is skipped, so runs of blanks separate like one. */
  lemma TokensSkipsBlank(c: char, s: string)
    requires IsSpace(c)
    ensures Tokens([c] + s) == Tokens(s)
  {
    assert ([c] + s)[1..] == s;
  }

  /** A word followed by a blank is the first token, the rest is split after it. */
  lemma TokensOfWordThen(w: string, c: char, s: string)
    requires IsWord(w) && IsSpace(c)
    ensures Tokens(w + [c] + s) == [w] + Tokens([c] + s)
  {
    WordLengthOfWord(w, [c] + s);
    assert w + [c] + s == w + ([c] + s);
    assert (w + ([c] + s))[..|w|] == w && (w + ([c] + s))[|w|..] == [c] + s;
  }

  /** A word at the end of the text is the last token: trailing blanks add nothing. */
  lemma TokensOfWord(w: string)
    requires IsWord(w)
    ensures Tokens(w) == [w]
  {
    WordLengthOfWord(w, []);
    assert w + [] == w;
  }

  lemma {:induction false} TokensOfJoin(ws: seq<string>)
    requires forall k :: 0 <= k < |ws| ==> IsWord(ws[k])
    ensures Tokens(Join(ws, " ")) == ws
    decreases |ws|
  {
    if |ws| == 1 {
      WordLengthOfWord(ws[0], []);
      assert ws[0] + [] == ws[0];
      assert ws[0][|ws[0]|..] == [];
    } else if |ws| > 1 {
      var rest := Join(ws[1..], " ");
      var s := ws[0] + " " + rest;
      WordLengthOfWord(ws[0], " " + rest);
      assert ws[0] + (" " + rest) == s;
      assert s[..|ws[0]|] == ws[0];
      assert s[|ws[0]|..] == " " + rest;
      assert (" " + rest)[1..] == rest;
      TokensOfJoin(ws[1..]);
      assert [ws[0]] + ws[1..] == ws;
    }
  }

  // ----------------------------------------------------------------- int()

  predicate IsDigit(ch: char) { '0' <= ch <= '9' }

  /** Every character is a decimal digit, checked from the last one back. */
  predicate AllDigits(s: string)
    decreases |s|
  {
    |s| == 0 || (AllDigits(s[..|s| - 1]) && IsDigit(s[|s| - 1]))
  }

  /** `AllDigits` holds exactly when each character is a digit. */
  lemma {:induction false} AllDigitsAt(s: string)
    ensures AllDigits(s) <==> forall k :: 0 <= k < |s| ==> IsDigit(s[k])
    decreases |s|
  {
    if |s| > 0 {
      var init := s[..|s| - 1];
      AllDigitsAt(init);
      assert forall k :: 0 <= k < |init| ==> init[k] == s[k];
    }
  }

  /** A non-empty run of ASCII decimal digits. */
  predicate IsDigits(s: string) { |s| > 0 && AllDigits(s) }

  /** Value of a decimal digit string, most significant digit first. */
  function DigitsValue(s: string): nat
    requires AllDigits(s)
    decreases |s|
  {
    if |s| == 0 then 0 else DigitsValue(s[..|s| - 1]) * 10 + (s[|s| - 1] as int - '0' as int)
  }

  /** `int(text)` for text made of an optional sign and decimal digits; anything else raises. */
  function ParseInt(s: string): (r: Option<int>)
    ensures r.Some? ==> |s| > 0 && IsDigit(s[|s| - 1])
    ensures r.Some? && r.value < 0 ==> s[0] == '-'
  {
    if IsDigits(s) then Some(DigitsValue(s))
    else if |s| >= 2 && (s[0] == '+' || s[0] == '-') && IsDigits(s[1..]) then
      var v: int := DigitsValue(s[1..]);
      Some(if s[0] == '-' then -v else v)
    else None
  }

  function DigitChar(d: nat): char
    requires d < 10
  {
    ('0' as int + d) as char
  }

  /** `str(n)` for a natural number. */
  function ShowNat(n: nat): (s: string)
    ensures IsDigits(s)
    decreases n
  {
    if n < 10 then
      var s := [DigitChar(n)];
      assert s[..0] == [];
      s
    else
      var s := ShowNat(n / 10) + [DigitChar(n % 10)];
      assert s[..|s| - 1] == ShowNat(n / 10);
      s
  }

  /** `str(n)` for an integer. */
  function ShowInt(n: int): string {
    if n < 0 then "-" + ShowNat(-n) else ShowNat(n)
  }

  lemma {:induction false} DigitsOfShowNat(n: nat)
    ensures DigitsValue(ShowNat(n)) == n
    decreases n
  {
    var s := ShowNat(n);
    if n < 10 {
      assert s[..0] == [];
    } else {
      assert s[..|s| - 1] == ShowNat(n / 10);
      DigitsOfShowNat(n / 10);
    }
  }

  /** `int(str(n)) == n`. */
  lemma ParseShowInt(n: int)
    ensures ParseInt(ShowInt(n)) == Some(n)
  {
    if n < 0 {
      var s := "-" + ShowNat(-n);
      AllDigitsAt(s);
      assert !IsDigit(s[0]);
      assert s[1..] == ShowNat(-n);
      DigitsOfShowNat(-n);
    } else {
      DigitsOfShowNat(n);
    }
  }

  /** Decimal digits contain no separator the core splits on. */
  lemma DigitsAvoid(s: string, c: char)
    requires AllDigits(s) && !IsDigit(c)
    ensures c !in s
  {
    AllDigitsAt(s);
  }

  // --------------------------------------------------------------- slices

  /** `xs[:j]`, with Python's clamping and negative-index meaning. */
  function TakePy<T>(xs: seq<T>, j: int): (r: seq<T>)
    ensures |r| <= |xs| && r == xs[..|r|]
    ensures j >= 0 ==> |r| == (if j < |xs| then j else |xs|)
  {
    if j >= 0 then xs[..if j < |xs| then j else |xs|]
    else xs[..if |xs| + j > 0 then |xs| + j else 0]
  }

  /** `xs[1:3]`, clamped to the sequence. */
  function Slice1To3<T>(xs: seq<T>): (r: seq<T>)
    ensures |r| == (if |xs| >= 3 then 2 else if |xs| >= 1 then |xs| - 1 else 0)
  {
    xs[if |xs| < 1 then |xs| else 1..if |xs| < 3 then |xs| else 3]
  }
}
