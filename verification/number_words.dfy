/** Indian-numbering number-to-words formatter: a whole number is split into
    crore (10^7), lakh (10^5), thousand and remainder buckets, each bucket
    spelled out with the hundreds/tens/ones tables.

    The string-building functions follow the source's concatenations; the
    word-level view (`Tokens`), the `Split` of a string at spaces and the
    left-to-right reader `Eval` are the independent definitions the round trip
    `Parse(Convert(n)) == n` is proved against. */
module NumberWords {

  const Ones: seq<string> := ["", "One", "Two", "Three", "Four", "Five", "Six", "Seven", "Eight", "Nine"]
  const Tens: seq<string> := ["", "", "Twenty", "Thirty", "Forty", "Fifty", "Sixty", "Seventy", "Eighty", "Ninety"]
  const Teens: seq<string> := ["Ten", "Eleven", "Twelve", "Thirteen", "Fourteen", "Fifteen", "Sixteen", "Seventeen", "Eighteen", "Nineteen"]

  const Crore: nat := 10_000_000
  const Lakh: nat := 100_000
  /** The formatter is only well defined below 10^10: larger inputs give a
      crore bucket of 1000 or more, which the hundreds table cannot spell. */
  const Limit: nat := 10_000_000_000

  // ---------------------------------------------------------------------------
  // The formatter as the source builds it

  /** Spells 0..999; zero gives the empty string. */
  function BelowThousand(n: nat): (r: string)
    requires n < 1000
    ensures r == "" <==> n == 0
  {
    if n == 0 then ""
    else if n < 10 then Ones[n]
    else if n < 20 then Teens[n - 10]
    else if n < 100 then
      Tens[n / 10] + (if n % 10 != 0 then " " + Ones[n % 10] else "")
    else
      Ones[n / 100] + " Hundred" + (if n % 100 != 0 then " and " + BelowThousand(n % 100) else "")
  }

  /** The crore, lakh, thousand and remainder buckets of n. */
  function Buckets(n: nat): (b: (nat, nat, nat, nat))
    requires n < Limit
    ensures b.0 < 1000 && b.1 < 100 && b.2 < 100 && b.3 < 1000
    ensures b.0 * Crore + b.1 * Lakh + b.2 * 1000 + b.3 == n
  {
    var crore, lakh, thousand, remainder := n / Crore, (n % Crore) / Lakh, (n % Lakh) / 1000, n % 1000;
    ModUnique(n, Lakh, crore * 100 + lakh, (n % Crore) % Lakh);
    ModUnique(n, 1000, (n / Lakh) * 100 + thousand, (n % Lakh) % 1000);
    (crore, lakh, thousand, remainder)
  }

  /** Euclidean division is unique: a quotient and an in-range remainder that
      rebuild n are n's. */
  lemma ModUnique(n: nat, d: nat, q: int, r: int)
    requires d > 0 && 0 <= r < d && n == q * d + r
    ensures n % d == r
  {
    var q' := n / d;
    assert q * d == q' * d + (q - q') * d;
    if q - q' >= 1 {
      AtLeastOnce(q - q', d);
      assert false;
    } else if q' - q >= 1 {
      AtLeastOnce(q' - q, d);
      assert false;
    }
  }

  /** A positive multiple of a non-negative d is at least d. */
  lemma AtLeastOnce(k: int, d: int)
    ensures k >= 1 && d >= 0 ==> k * d >= d
  {
    if k >= 1 && d >= 0 {
      assert k * d == (k - 1) * d + d;
    }
  }

  /** Appends one bucket's words to the result built so far, with a separating
      space only when the result is already non-empty. */
  function AppendBucket(result: string, words: string): string
  {
    result + (if result != "" then " " else "") + words
  }

  /** The inner `convert`: "Zero" for zero, otherwise the non-zero buckets in
      crore, lakh, thousand, remainder order. */
  function Convert(n: nat): (r: string)
    requires n < Limit
  {
    if n == 0 then "Zero"
    else
      var (crore, lakh, thousand, remainder) := Buckets(n);
      Assemble(crore, lakh, thousand, remainder)
  }

  /** The four conditional appends of `convert`, one per bucket. */
  function Assemble(crore: nat, lakh: nat, thousand: nat, remainder: nat): string
    requires crore < 1000 && lakh < 1000 && thousand < 1000 && remainder < 1000
  {
    var r1 := if crore > 0 then BelowThousand(crore) + " Crore" else "";
    AppendIf(AppendIf(AppendIf(r1, lakh, " Lakh"), thousand, " Thousand"), remainder, "")
  }

  /** `if (v > 0) result += (result ? ' ' : '') + words(v) + suffix`. */
  function AppendIf(result: string, v: nat, suffix: string): string
    requires v < 1000
  {
    if v > 0 then AppendBucket(result, BelowThousand(v) + suffix) else result
  }

  /** numberToWords: exactly zero is "Zero"; otherwise the floor is spelled. */
  function NumberToWords(num: real): (r: string)
    requires 0.0 <= num < Limit as real
    ensures num < 1.0 ==> r == "Zero"
    ensures 1.0 <= num ==> r != "" && "Zero" !in Split(r)
    ensures Parse(r) == num.Floor
  {
    var n := num.Floor;
    ConvertMeaning(n);
    if num == 0.0 then "Zero" else Convert(n)
  }

  // ---------------------------------------------------------------------------
  // The word-level view

  /** A word: non-empty and free of spaces. */
  predicate IsWord(w: string)
  {
    |w| > 0 && ' ' !in w
  }

  /** A word of a bucket, worth v, that is neither "Zero" nor a scale word. */
  predicate NumberWord(w: string, v: nat)
  {
    IsWord(w) && WordValue(w) == v &&
    w != "Zero" && w != "Hundred" && w != "Thousand" && w != "Lakh" && w != "Crore"
  }

  /** The words of one bucket 0..999. */
  function GroupTokens(n: nat): (ws: seq<string>)
    requires n < 1000
    ensures (ws == []) <==> (n == 0)
  {
    if n == 0 then []
    else if n < 10 then [Ones[n]]
    else if n < 20 then [Teens[n - 10]]
    else if n < 100 then [Tens[n / 10]] + (if n % 10 != 0 then [Ones[n % 10]] else [])
    else [Ones[n / 100], "Hundred"] + (if n % 100 != 0 then ["and"] + GroupTokens(n % 100) else [])
  }

  /** A non-zero bucket followed by its scale word; a zero bucket is skipped. */
  function Section(v: nat, scale: string): seq<string>
    requires v < 1000
  {
    if v > 0 then GroupTokens(v) + [scale] else []
  }

  /** The words of the whole number, bucket by bucket. */
  function Tokens(n: nat): seq<string>
    requires n < Limit
  {
    if n == 0 then ["Zero"]
    else
      var (crore, lakh, thousand, remainder) := Buckets(n);
      BucketTokens(crore, lakh, thousand, remainder)
  }

  function BucketTokens(crore: nat, lakh: nat, thousand: nat, remainder: nat): seq<string>
    requires crore < 1000 && lakh < 1000 && thousand < 1000 && remainder < 1000
  {
    Section(crore, "Crore") + Section(lakh, "Lakh") + Section(thousand, "Thousand") + GroupTokens(remainder)
  }

  /** Words joined by single spaces. */
  function Join(ws: seq<string>): string
  {
    if |ws| == 0 then ""
    else if |ws| == 1 then ws[0]
    else ws[0] + " " + Join(ws[1..])
  }

  /** A string cut at every space (so "" gives [""] and "a  b" gives ["a", "", "b"]). */
  function Split(s: string): (ws: seq<string>)
    ensures |ws| >= 1
  {
    if |s| == 0 then [""]
    else if s[0] == ' ' then [""] + Split(s[1..])
    else
      var rest := Split(s[1..]);
      [[s[0]] + rest[0]] + rest[1..]
  }

  // ---------------------------------------------------------------------------
  // A words-to-number reader

  /** The value of a number word; every other word ("and", "Zero", scales) is 0. */
  function WordValue(w: string): nat
  {
    if w == "One" then 1 else if w == "Two" then 2 else if w == "Three" then 3
    else if w == "Four" then 4 else if w == "Five" then 5 else if w == "Six" then 6
    else if w == "Seven" then 7 else if w == "Eight" then 8 else if w == "Nine" then 9
    else if w == "Ten" then 10 else if w == "Eleven" then 11 else if w == "Twelve" then 12
    else if w == "Thirteen" then 13 else if w == "Fourteen" then 14 else if w == "Fifteen" then 15
    else if w == "Sixteen" then 16 else if w == "Seventeen" then 17 else if w == "Eighteen" then 18
    else if w == "Nineteen" then 19 else if w == "Twenty" then 20 else if w == "Thirty" then 30
    else if w == "Forty" then 40 else if w == "Fifty" then 50 else if w == "Sixty" then 60
    else if w == "Seventy" then 70 else if w == "Eighty" then 80 else if w == "Ninety" then 90
    else 0
  }

  /** Reads words left to right: number words add to the current group,
      "Hundred" multiplies it by 100, and a scale word moves the group, scaled,
      into the total. */
  function Eval(ws: seq<string>, total: nat, current: nat): nat
  {
    if ws == [] then total + current
    else
      var w := ws[0];
      if w == "Crore" then Eval(ws[1..], total + current * Crore, 0)
      else if w == "Lakh" then Eval(ws[1..], total + current * Lakh, 0)
      else if w == "Thousand" then Eval(ws[1..], total + current * 1000, 0)
      else if w == "Hundred" then Eval(ws[1..], total, current * 100)
      else Eval(ws[1..], total, current + WordValue(w))
  }

  function Parse(s: string): nat
  {
    Eval(Split(s), 0, 0)
  }

  // ---------------------------------------------------------------------------
  // Facts about the tables

  // Each table entry is a number word worth its position; the value and
  // the shape of the entries are checked separately.

  lemma OnesWord(d: nat)
    requires 1 <= d <= 9
    ensures NumberWord(Ones[d], d)
  {
    OnesValue(d);
    OnesShape(d);
  }

  lemma OnesValue(d: nat)
    requires 1 <= d <= 9
    ensures WordValue(Ones[d]) == d
  {
    if d == 1 { assert Ones[d] == "One"; }
    else if d == 2 { assert Ones[d] == "Two"; }
    else if d == 3 { assert Ones[d] == "Three"; }
    else if d == 4 { assert Ones[d] == "Four"; }
    else if d == 5 { assert Ones[d] == "Five"; }
    else if d == 6 { assert Ones[d] == "Six"; }
    else if d == 7 { assert Ones[d] == "Seven"; }
    else if d == 8 { assert Ones[d] == "Eight"; }
    else { assert Ones[d] == "Nine"; }
  }

  lemma OnesShape(d: nat)
    requires 1 <= d <= 9
    ensures IsWord(Ones[d]) && Ones[d] != "Zero" && Ones[d] != "Hundred"
    ensures Ones[d] != "Thousand" && Ones[d] != "Lakh" && Ones[d] != "Crore"
  {
    if d == 1 { assert Ones[d] == "One"; }
    else if d == 2 { assert Ones[d] == "Two"; }
    else if d == 3 { assert Ones[d] == "Three"; }
    else if d == 4 { assert Ones[d] == "Four"; }
    else if d == 5 { assert Ones[d] == "Five"; }
    else if d == 6 { assert Ones[d] == "Six"; }
    else if d == 7 { assert Ones[d] == "Seven"; }
    else if d == 8 { assert Ones[d] == "Eight"; }
    else { assert Ones[d] == "Nine"; }
  }

  lemma TeensWord(d: nat)
    requires d <= 9
    ensures NumberWord(Teens[d], 10 + d)
  {
    TeensValue(d);
    TeensShape(d);
  }

  lemma TeensValue(d: nat)
    requires d <= 9
    ensures WordValue(Teens[d]) == 10 + d
  {
    if d == 0 { assert Teens[d] == "Ten"; }
    else if d == 1 { assert Teens[d] == "Eleven"; }
    else if d == 2 { assert Teens[d] == "Twelve"; }
    else if d == 3 { assert Teens[d] == "Thirteen"; }
    else if d == 4 { assert Teens[d] == "Fourteen"; }
    else if d == 5 { assert Teens[d] == "Fifteen"; }
    else if d == 6 { assert Teens[d] == "Sixteen"; }
    else if d == 7 { assert Teens[d] == "Seventeen"; }
    else if d == 8 { assert Teens[d] == "Eighteen"; }
    else { assert Teens[d] == "Nineteen"; }
  }

  lemma TeensShape(d: nat)
    requires d <= 9
    ensures IsWord(Teens[d]) && Teens[d] != "Zero" && Teens[d] != "Hundred"
    ensures Teens[d] != "Thousand" && Teens[d] != "Lakh" && Teens[d] != "Crore"
  {
    if d == 0 { assert Teens[d] == "Ten"; }
    else if d == 1 { assert Teens[d] == "Eleven"; }
    else if d == 2 { assert Teens[d] == "Twelve"; }
    else if d == 3 { assert Teens[d] == "Thirteen"; }
    else if d == 4 { assert Teens[d] == "Fourteen"; }
    else if d == 5 { assert Teens[d] == "Fifteen"; }
    else if d == 6 { assert Teens[d] == "Sixteen"; }
    else if d == 7 { assert Teens[d] == "Seventeen"; }
    else if d == 8 { assert Teens[d] == "Eighteen"; }
    else { assert Teens[d] == "Nineteen"; }
  }

  lemma TensWord(d: nat)
    requires 2 <= d <= 9
    ensures NumberWord(Tens[d], 10 * d)
  {
    TensValue(d);
    TensShape(d);
  }

  lemma TensValue(d: nat)
    requires 2 <= d <= 9
    ensures WordValue(Tens[d]) == 10 * d
  {
    if d == 2 { assert Tens[d] == "Twenty"; }
    else if d == 3 { assert Tens[d] == "Thirty"; }
    else if d == 4 { assert Tens[d] == "Forty"; }
    else if d == 5 { assert Tens[d] == "Fifty"; }
    else if d == 6 { assert Tens[d] == "Sixty"; }
    else if d == 7 { assert Tens[d] == "Seventy"; }
    else if d == 8 { assert Tens[d] == "Eighty"; }
    else { assert Tens[d] == "Ninety"; }
  }

  lemma TensShape(d: nat)
    requires 2 <= d <= 9
    ensures IsWord(Tens[d]) && Tens[d] != "Zero" && Tens[d] != "Hundred"
    ensures Tens[d] != "Thousand" && Tens[d] != "Lakh" && Tens[d] != "Crore"
  {
    if d == 2 { assert Tens[d] == "Twenty"; }
    else if d == 3 { assert Tens[d] == "Thirty"; }
    else if d == 4 { assert Tens[d] == "Forty"; }
    else if d == 5 { assert Tens[d] == "Fifty"; }
    else if d == 6 { assert Tens[d] == "Sixty"; }
    else if d == 7 { assert Tens[d] == "Seventy"; }
    else if d == 8 { assert Tens[d] == "Eighty"; }
    else { assert Tens[d] == "Ninety"; }
  }

  /** Every word of a bucket is a number word (or "and" / "Hundred"). */
  lemma {:induction false} GroupTokensAreWords(n: nat)
    requires n < 1000
    ensures forall k :: 0 <= k < |GroupTokens(n)| ==> IsWord(GroupTokens(n)[k]) && GroupTokens(n)[k] != "Zero"
  {
    if n == 0 {
    } else if n < 10 {
      OnesWord(n);
    } else if n < 20 {
      TeensWord(n - 10);
    } else if n < 100 {
      TensWord(n / 10);
      if n % 10 != 0 { OnesWord(n % 10); }
    } else {
      OnesWord(n / 100);
      if n % 100 != 0 { GroupTokensAreWords(n % 100); }
    }
  }

  // ---------------------------------------------------------------------------
  // Join and Split

  /** Joining two non-empty runs of words puts exactly one space between them. */
  lemma {:induction false} JoinConcat(a: seq<string>, b: seq<string>)
    requires b != []
    ensures Join(a + b) == (if a == [] then "" else Join(a) + " ") + Join(b)
  {
    if |a| == 0 {
      assert a + b == b;
    } else if |a| == 1 {
      assert (a + b)[1..] == b;
    } else {
      assert (a + b)[1..] == a[1..] + b;
      JoinConcat(a[1..], b);
    }
  }

  lemma JoinCons(w: string, ws: seq<string>)
    requires ws != []
    ensures Join([w] + ws) == w + " " + Join(ws)
  {
    assert ([w] + ws)[1..] == ws;
  }

  /** The spaces in the source's bucket strings are exactly the separators of
      its words. */
  lemma BelowThousandJoins(n: nat)
    requires n < 1000
    ensures BelowThousand(n) == Join(GroupTokens(n))
  {
    if n < 100 {
      BelowHundredJoins(n);
    } else {
      HundredsJoin(n);
    }
  }

  lemma BelowHundredJoins(n: nat)
    requires n < 100
    ensures BelowThousand(n) == Join(GroupTokens(n))
  {
    if 20 <= n && n % 10 != 0 {
      JoinCons(Tens[n / 10], [Ones[n % 10]]);
    }
  }

  lemma HundredsJoin(n: nat)
    requires 100 <= n < 1000
    ensures BelowThousand(n) == Join(GroupTokens(n))
  {
    var d, r := n / 100, n % 100;
    var o := Ones[d];
    if r != 0 {
      var g := GroupTokens(r);
      var j := Join(g);
      assert BelowThousand(n) == o + " Hundred" + (" and " + j) by {
        BelowHundredJoins(r);
      }
      assert Join(GroupTokens(n)) == o + " " + ("Hundred" + " " + ("and" + " " + j)) by {
        JoinCons("and", g);
        JoinCons("Hundred", ["and"] + g);
        JoinCons(o, ["Hundred"] + (["and"] + g));
        assert GroupTokens(n) == [o] + (["Hundred"] + (["and"] + g));
      }
      HundredAndString(o, j);
    } else {
      assert BelowThousand(n) == o + " Hundred" + "";
      assert Join(GroupTokens(n)) == o + " " + "Hundred" by {
        JoinCons(o, ["Hundred"]);
        assert GroupTokens(n) == [o] + ["Hundred"];
      }
      assert o + " Hundred" + "" == o + " " + "Hundred";
    }
  }

  lemma HundredAndString(o: string, j: string)
    ensures o + " Hundred" + (" and " + j) == o + " " + ("Hundred" + " " + ("and" + " " + j))
  {
    assert " Hundred" + (" and " + j) == " " + ("Hundred" + " " + ("and" + " " + j));
  }

  lemma NotInTail(w: string)
    requires |w| > 0 && ' ' !in w
    ensures ' ' !in w[1..]
  {
    forall k | 0 <= k < |w[1..]| ensures w[1..][k] != ' ' {
      assert w[1..][k] == w[k + 1];
    }
  }

  /** Splitting a space-free string gives it back as the only word. */
  lemma {:induction false} SplitWord(w: string)
    requires ' ' !in w
    ensures Split(w) == [w]
  {
    if |w| > 0 {
      NotInTail(w);
      SplitWord(w[1..]);
      assert [w[0]] + w[1..] == w;
    }
  }

  /** Splitting a word, a space and the rest gives the word and the rest's words. */
  lemma {:induction false} SplitWordSpace(w: string, t: string)
    requires ' ' !in w
    ensures Split(w + " " + t) == [w] + Split(t)
  {
    if |w| == 0 {
      assert (w + " " + t)[1..] == t;
    } else {
      NotInTail(w);
      assert (w + " " + t)[1..] == w[1..] + " " + t;
      SplitWordSpace(w[1..], t);
      assert [w[0]] + w[1..] == w;
    }
  }

  /** Split undoes Join on words. */
  lemma {:induction false} SplitJoin(ws: seq<string>)
    requires |ws| >= 1
    requires forall k :: 0 <= k < |ws| ==> IsWord(ws[k])
    ensures Split(Join(ws)) == ws
  {
    if |ws| == 1 {
      SplitWord(ws[0]);
    } else {
      SplitWordSpace(ws[0], Join(ws[1..]));
      SplitJoin(ws[1..]);
      assert [ws[0]] + ws[1..] == ws;
    }
  }

  /** A space-joined run of words neither starts nor ends with a space. */
  lemma {:induction false} JoinEnds(ws: seq<string>)
    requires |ws| >= 1
    requires forall k :: 0 <= k < |ws| ==> IsWord(ws[k])
    ensures Join(ws) != "" && Join(ws)[0] != ' ' && Join(ws)[|Join(ws)| - 1] != ' '
  {
    if |ws| > 1 {
      JoinEnds(ws[1..]);
      var s := ws[0] + " " + Join(ws[1..]);
      assert s[0] == ws[0][0];
      assert s[|s| - 1] == Join(ws[1..])[|Join(ws[1..])| - 1];
    }
  }

  // ---------------------------------------------------------------------------
  // Reading the words back

  lemma EvalNumberWord(w: string, v: nat, rest: seq<string>, total: nat, current: nat)
    requires NumberWord(w, v)
    ensures Eval([w] + rest, total, current) == Eval(rest, total, current + v)
  {
    var ws := [w] + rest;
    assert ws[0] == w && ws[1..] == rest;
    assert ws != [] && w != "Crore" && w != "Lakh" && w != "Thousand" && w != "Hundred";
    assert Eval(ws, total, current) == Eval(ws[1..], total, current + WordValue(w));
  }

  /** Reading the words of a bucket below 100 adds its value to the current group. */
  lemma EvalTail(g: nat, rest: seq<string>, total: nat, current: nat)
    requires g < 100
    ensures Eval(GroupTokens(g) + rest, total, current) == Eval(rest, total, current + g)
  {
    if g == 0 {
      assert GroupTokens(g) + rest == rest;
    } else if g < 20 || g % 10 == 0 {
      EvalSingleWord(g, rest, total, current);
    } else {
      EvalTwoWords(g, rest, total, current);
    }
  }

  /** A bucket spelled with one word: 1..19 and the multiples of ten. */
  lemma EvalSingleWord(g: nat, rest: seq<string>, total: nat, current: nat)
    requires 0 < g < 100 && (g < 20 || g % 10 == 0)
    ensures Eval(GroupTokens(g) + rest, total, current) == Eval(rest, total, current + g)
  {
    if g < 10 {
      OnesWord(g);
      EvalNumberWord(Ones[g], g, rest, total, current);
    } else if g < 20 {
      TeensWord(g - 10);
      EvalNumberWord(Teens[g - 10], g, rest, total, current);
    } else {
      TensWord(g / 10);
      EvalNumberWord(Tens[g / 10], g, rest, total, current);
    }
  }

  /** A bucket spelled with a tens word and a ones word. */
  lemma EvalTwoWords(g: nat, rest: seq<string>, total: nat, current: nat)
    requires 20 <= g < 100 && g % 10 != 0
    ensures Eval(GroupTokens(g) + rest, total, current) == Eval(rest, total, current + g)
  {
    var t, o := Tens[g / 10], Ones[g % 10];
    assert GroupTokens(g) + rest == [t] + ([o] + rest);
    TensWord(g / 10);
    EvalNumberWord(t, 10 * (g / 10), [o] + rest, total, current);
    OnesWord(g % 10);
    EvalNumberWord(o, g % 10, rest, total, current + 10 * (g / 10));
  }

  lemma EvalHundred(rest: seq<string>, total: nat, current: nat)
    ensures Eval(["Hundred"] + rest, total, current) == Eval(rest, total, current * 100)
  {
    assert (["Hundred"] + rest)[0] == "Hundred" && (["Hundred"] + rest)[1..] == rest;
  }

  lemma EvalScale(scale: string, unit: nat, rest: seq<string>, total: nat, current: nat)
    requires (scale == "Crore" && unit == Crore) || (scale == "Lakh" && unit == Lakh) ||
             (scale == "Thousand" && unit == 1000)
    ensures Eval([scale] + rest, total, current) == Eval(rest, total + current * unit, 0)
  {
    assert ([scale] + rest)[0] == scale && ([scale] + rest)[1..] == rest;
  }

  /** Reading the words of a bucket 1..999 from an empty group leaves exactly
      that bucket's value as the current group. */
  lemma EvalGroup(g: nat, rest: seq<string>, total: nat)
    requires 0 < g < 1000
    ensures Eval(GroupTokens(g) + rest, total, 0) == Eval(rest, total, g)
  {
    if g < 100 {
      EvalTail(g, rest, total, 0);
    } else {
      EvalHundreds(g, rest, total);
    }
  }

  /** The optional "and ..." that follows "<Digit> Hundred". */
  function HundredsTail(r: nat): seq<string>
    requires r < 100
  {
    if r != 0 then ["and"] + GroupTokens(r) else []
  }

  lemma HundredsTokens(g: nat, rest: seq<string>)
    requires 100 <= g < 1000
    ensures GroupTokens(g) + rest == [Ones[g / 100]] + (["Hundred"] + (HundredsTail(g % 100) + rest))
  {
  }

  /** "and" is read as a number word worth nothing. */
  lemma AndWord()
    ensures NumberWord("and", 0)
  {
  }

  lemma EvalHundredsTail(r: nat, rest: seq<string>, total: nat, current: nat)
    requires r < 100
    ensures Eval(HundredsTail(r) + rest, total, current) == Eval(rest, total, current + r)
  {
    if r != 0 {
      assert HundredsTail(r) + rest == ["and"] + (GroupTokens(r) + rest);
      assert Eval(HundredsTail(r) + rest, total, current) == Eval(GroupTokens(r) + rest, total, current) by {
        AndWord();
        EvalNumberWord("and", 0, GroupTokens(r) + rest, total, current);
      }
      EvalTail(r, rest, total, current);
    } else {
      assert HundredsTail(r) + rest == rest;
    }
  }

  lemma EvalHundreds(g: nat, rest: seq<string>, total: nat)
    requires 100 <= g < 1000
    ensures Eval(GroupTokens(g) + rest, total, 0) == Eval(rest, total, g)
  {
    var d, r := g / 100, g % 100;
    assert d * 100 + r == g;
    var later := HundredsTail(r) + rest;
    OnesWord(d);
    HundredsTokens(g, rest);
    EvalNumberWord(Ones[d], d, ["Hundred"] + later, total, 0);
    EvalHundred(later, total, d);
    EvalHundredsTail(r, rest, total, d * 100);
  }

  /** A bucket and its scale word move value * unit into the total. */
  lemma EvalSection(v: nat, scale: string, unit: nat, rest: seq<string>, total: nat, after: nat)
    requires v < 1000
    requires (scale == "Crore" && unit == Crore) || (scale == "Lakh" && unit == Lakh) ||
             (scale == "Thousand" && unit == 1000)
    requires after == total + v * unit
    ensures Eval(Section(v, scale) + rest, total, 0) == Eval(rest, after, 0)
  {
    if v > 0 {
      assert Section(v, scale) + rest == GroupTokens(v) + ([scale] + rest);
      EvalGroup(v, [scale] + rest, total);
      EvalScale(scale, unit, rest, total, v);
    } else {
      assert Section(v, scale) + rest == rest;
    }
  }

  lemma EvalBuckets(c: nat, l: nat, t: nat, r: nat)
    requires c < 1000 && l < 1000 && t < 1000 && r < 1000
    ensures Eval(BucketTokens(c, l, t, r), 0, 0) == c * Crore + l * Lakh + t * 1000 + r
  {
    var last := GroupTokens(r);
    var s2, s3 := Section(l, "Lakh"), Section(t, "Thousand");
    var t1, t2, t3 := c * Crore, c * Crore + l * Lakh, c * Crore + l * Lakh + t * 1000;
    Regroup(Section(c, "Crore"), s2, s3, last);
    assert Eval(Section(c, "Crore") + (s2 + (s3 + last)), 0, 0) == Eval(s2 + (s3 + last), t1, 0) by {
      EvalSection(c, "Crore", Crore, s2 + (s3 + last), 0, t1);
    }
    assert Eval(s2 + (s3 + last), t1, 0) == Eval(s3 + last, t2, 0) by {
      EvalSection(l, "Lakh", Lakh, s3 + last, t1, t2);
    }
    assert Eval(s3 + last, t2, 0) == Eval(last, t3, 0) by {
      EvalSection(t, "Thousand", 1000, last, t2, t3);
    }
    assert Eval(last, t3, 0) == t3 + r by {
      EvalLast(r, t3);
    }
  }

  lemma Regroup(a: seq<string>, b: seq<string>, c: seq<string>, d: seq<string>)
    ensures a + b + c + d == a + (b + (c + d))
  {
  }

  lemma EvalLast(r: nat, total: nat)
    requires r < 1000
    ensures Eval(GroupTokens(r), total, 0) == total + r
  {
    if r > 0 {
      EvalGroup(r, [], total);
      assert GroupTokens(r) + [] == GroupTokens(r);
    }
  }

  /** Reading the words of n gives back n. */
  lemma EvalTokens(n: nat)
    requires n < Limit
    ensures Eval(Tokens(n), 0, 0) == n
  {
    if n > 0 {
      var (c, l, t, r) := Buckets(n);
      EvalBuckets(c, l, t, r);
    }
  }

  /** One step of the source's accumulation: appending a bucket's words keeps
      the result equal to the space-joined words so far. */
  lemma AppendBucketJoins(done: seq<string>, more: seq<string>)
    requires more != []
    requires done != [] ==> IsWord(done[0])
    ensures AppendBucket(Join(done), Join(more)) == Join(done + more)
  {
    JoinConcat(done, more);
  }

  lemma ScaledBucketJoins(v: nat, scale: string)
    requires 0 < v < 1000
    ensures BelowThousand(v) + " " + scale == Join(Section(v, scale))
  {
    BelowThousandJoins(v);
    JoinConcat(GroupTokens(v), [scale]);
  }

  lemma SectionWords(v: nat, scale: string)
    requires v < 1000 && IsWord(scale) && scale != "Zero"
    ensures forall k :: 0 <= k < |Section(v, scale)| ==> IsWord(Section(v, scale)[k]) && Section(v, scale)[k] != "Zero"
  {
    GroupTokensAreWords(v);
  }

  /** One conditional append of `convert`: a non-zero bucket and its scale
      word are appended, a zero bucket leaves the result alone. */
  lemma AppendSectionJoins(prev: string, done: seq<string>, v: nat, scale: string, suffix: string)
    requires v < 1000 && IsWord(scale) && scale != "Zero" && suffix == " " + scale
    requires prev == Join(done) && (done != [] ==> IsWord(done[0]))
    ensures AppendIf(prev, v, suffix) == Join(done + Section(v, scale))
    ensures done + Section(v, scale) != [] ==> IsWord((done + Section(v, scale))[0])
  {
    if v > 0 {
      var section := Section(v, scale);
      assert BelowThousand(v) + suffix == Join(section) by {
        ScaledBucketJoins(v, scale);
      }
      assert IsWord(section[0]) by {
        SectionWords(v, scale);
      }
      AppendBucketJoins(done, section);
    } else {
      assert done + Section(v, scale) == done;
    }
  }

  lemma AppendRemainderJoins(prev: string, done: seq<string>, r: nat)
    requires r < 1000
    requires prev == Join(done) && (done != [] ==> IsWord(done[0]))
    ensures AppendIf(prev, r, "") == Join(done + GroupTokens(r))
  {
    if r > 0 {
      BelowThousandJoins(r);
      assert BelowThousand(r) + "" == BelowThousand(r);
      AppendBucketJoins(done, GroupTokens(r));
    } else {
      assert done + GroupTokens(r) == done;
    }
  }

  /** The crore and lakh buckets of `convert`, as words. */
  lemma CroreLakhJoins(c: nat, l: nat)
    requires c < 1000 && l < 1000
    ensures var r1 := if c > 0 then BelowThousand(c) + " Crore" else "";
            AppendIf(r1, l, " Lakh") == Join(Section(c, "Crore") + Section(l, "Lakh"))
    ensures var ws := Section(c, "Crore") + Section(l, "Lakh");
            ws != [] ==> IsWord(ws[0])
  {
    var s1 := Section(c, "Crore");
    var r1 := if c > 0 then BelowThousand(c) + " Crore" else "";
    assert r1 == Join(s1) && (s1 != [] ==> IsWord(s1[0])) by {
      AppendSectionJoins("", [], c, "Crore", " Crore");
      assert [] + s1 == s1;
      assert AppendIf("", c, " Crore") == r1;
    }
    assert IsWord("Lakh") && "Lakh" != "Zero" && " Lakh" == " " + "Lakh";
    AppendSectionJoins(r1, s1, l, "Lakh", " Lakh");
  }

  lemma AssembleJoins(c: nat, l: nat, t: nat, r: nat)
    requires c < 1000 && l < 1000 && t < 1000 && r < 1000
    ensures Assemble(c, l, t, r) == Join(BucketTokens(c, l, t, r))
  {
    var s12, s3 := Section(c, "Crore") + Section(l, "Lakh"), Section(t, "Thousand");
    var r1 := if c > 0 then BelowThousand(c) + " Crore" else "";
    var r2 := AppendIf(r1, l, " Lakh");
    var r3 := AppendIf(r2, t, " Thousand");
    assert r2 == Join(s12) && (s12 != [] ==> IsWord(s12[0])) by {
      CroreLakhJoins(c, l);
    }
    assert r3 == Join(s12 + s3) && (s12 + s3 != [] ==> IsWord((s12 + s3)[0])) by {
      assert IsWord("Thousand") && "Thousand" != "Zero" && " Thousand" == " " + "Thousand";
      AppendSectionJoins(r2, s12, t, "Thousand", " Thousand");
    }
    AppendRemainderJoins(r3, s12 + s3, r);
  }

  /** The source's string is the space-joined word view. */
  lemma ConvertJoins(n: nat)
    requires n < Limit
    ensures Convert(n) == Join(Tokens(n))
  {
    if n > 0 {
      var (c, l, t, r) := Buckets(n);
      AssembleJoins(c, l, t, r);
    }
  }

  /** Every word of the output is a real word, none is "Zero" unless n is 0, and
      there is at least one. */
  lemma TokensAreWords(n: nat)
    requires n < Limit
    ensures |Tokens(n)| >= 1
    ensures forall k :: 0 <= k < |Tokens(n)| ==> IsWord(Tokens(n)[k])
    ensures n > 0 ==> "Zero" !in Tokens(n)
  {
    if n > 0 {
      var (c, l, t, r) := Buckets(n);
      SectionWords(c, "Crore");
      SectionWords(l, "Lakh");
      SectionWords(t, "Thousand");
      GroupTokensAreWords(r);
      assert c > 0 || l > 0 || t > 0 || r > 0;
    }
  }

  /** What the formatter's output means: it is a non-empty run of words joined
      by single spaces (no leading, trailing or double space), it mentions
      "Zero" only for zero, and reading it back gives the number. */
  lemma ConvertMeaning(n: nat)
    requires n < Limit
    ensures Split(Convert(n)) == Tokens(n)
    ensures Convert(n) != "" && Convert(n)[0] != ' ' && Convert(n)[|Convert(n)| - 1] != ' '
    ensures forall k :: 0 <= k < |Split(Convert(n))| ==> Split(Convert(n))[k] != ""
    ensures n > 0 ==> "Zero" !in Split(Convert(n))
    ensures Parse(Convert(n)) == n
  {
    var ws := Tokens(n);
    assert Convert(n) == Join(ws) by {
      ConvertJoins(n);
    }
    assert |ws| >= 1 && (forall k :: 0 <= k < |ws| ==> IsWord(ws[k])) && (n > 0 ==> "Zero" !in ws) by {
      TokensAreWords(n);
    }
    SplitJoin(ws);
    assert Eval(ws, 0, 0) == n by {
      EvalTokens(n);
    }
    JoinEnds(ws);
  }

  /** The formatter never gives the same words for two different numbers. */
  lemma ConvertInjective(a: nat, b: nat)
    requires a < Limit && b < Limit
    requires Convert(a) == Convert(b)
    ensures a == b
  {
    ConvertMeaning(a);
    ConvertMeaning(b);
  }

  /** The words of one bucket 1..999 as the helper spells it: a teen is one
      word from the teens table; 20..99 is the tens word, followed by a ones
      word only when the last digit is not zero; from 100 on it starts
      "<Digit> Hundred" and goes on with "and" exactly when n mod 100 is not 0. */
  lemma BucketWords(n: nat)
    requires 0 < n < 1000
    ensures Split(BelowThousand(n)) == GroupTokens(n)
    ensures 10 <= n < 20 ==> Split(BelowThousand(n)) == [Teens[n - 10]]
    ensures 20 <= n < 100 ==>
      && Split(BelowThousand(n))[0] == Tens[n / 10]
      && |Split(BelowThousand(n))| == (if n % 10 == 0 then 1 else 2)
    ensures 100 <= n ==>
      && |Split(BelowThousand(n))| >= 2
      && Split(BelowThousand(n))[..2] == [Ones[n / 100], "Hundred"]
      && ("and" in Split(BelowThousand(n)) <==> n % 100 != 0)
  {
    BelowThousandJoins(n);
    GroupTokensAreWords(n);
    SplitJoin(GroupTokens(n));
    if 100 <= n && n % 100 == 0 {
      assert GroupTokens(n) == [Ones[n / 100], "Hundred"];
      assert "and" != Ones[n / 100] by {
        AndWord();
        OnesValue(n / 100);
      }
    }
  }

  /** Zero is spelled "Zero". */
  lemma ZeroExample()
    ensures NumberToWords(0.0) == "Zero"
  {
  }

  lemma HundredExample()
    ensures Convert(100) == "One Hundred"
  {
    assert Buckets(100) == (0, 0, 0, 100);
  }

  /** 12,34,567 reads as twelve lakh, thirty-four thousand, five hundred and
      sixty-seven. */
  lemma LakhExample()
    ensures Tokens(1234567) == ["Twelve", "Lakh", "Thirty", "Four", "Thousand", "Five", "Hundred", "and", "Sixty", "Seven"]
  {
    assert Buckets(1234567) == (0, 12, 34, 567);
    assert Tokens(1234567) == Section(0, "Crore") + Section(12, "Lakh") + Section(34, "Thousand") + GroupTokens(567);
    assert Section(0, "Crore") == [];
    assert Section(12, "Lakh") == ["Twelve", "Lakh"] by {
      assert GroupTokens(12) == [Teens[2]];
    }
    assert Section(34, "Thousand") == ["Thirty", "Four", "Thousand"] by {
      assert GroupTokens(34) == [Tens[3]] + [Ones[4]];
    }
    assert GroupTokens(567) == ["Five", "Hundred", "and", "Sixty", "Seven"] by {
      assert GroupTokens(67) == [Tens[6]] + [Ones[7]];
      assert GroupTokens(567) == [Ones[5], "Hundred"] + (["and"] + GroupTokens(67));
    }
  }
}
