/** The naming utilities of sync/util.ts: a strict slug (lower-case, every
    character outside `[A-Za-z0-9-]` becomes a dash, dash runs collapse) and
    the optional `"<digits> - "` display-order prefix of a name. */
module Util {
  import opened Base

  /** The characters a strict slug is made of: `[a-z0-9-]`. */
  predicate IsSlugChar(c: char)
  {
    IsAsciiLower(c) || IsDigit(c) || c == '-'
  }

  predicate NoDoubleDash(s: string)
  {
    forall i :: 0 <= i < |s| - 1 ==> !(s[i] == '-' && s[i + 1] == '-')
  }

  /** One character after `toLowerCase()` and `replace(/[^A-Za-z0-9-]/g, '-')`. */
  function SlugChar(c: char): (r: char)
    ensures IsSlugChar(r)
    ensures IsAsciiAlnum(c) ==> r == Lower(c) && IsAsciiAlnum(r)
    ensures !IsAsciiAlnum(c) ==> r == '-'
  {
    var l := Lower(c);
    if IsAsciiAlnum(l) || l == '-' then l else '-'
  }

  function ReplaceOutsideClass(s: string): string
  {
    seq(|s|, i requires 0 <= i < |s| => SlugChar(s[i]))
  }

  /** `replace(/--+/g, '-')`: every run of two or more dashes becomes one dash. */
  function CollapseDashes(s: string): (r: string)
    ensures |r| <= |s|
    ensures NoDoubleDash(r)
    ensures |s| > 0 ==> |r| > 0 && r[0] == s[0]
    ensures forall c :: c in r ==> c in s
    ensures Alnums(r) == Alnums(s)
    ensures NoDoubleDash(s) ==> r == s
  {
    if |s| < 2 then s
    else if s[0] == '-' && s[1] == '-' then CollapseDashes(s[1..])
    else
      var tail := CollapseDashes(s[1..]);
      assert ([s[0]] + tail)[1..] == tail;
      assert s == [s[0]] + s[1..];
      [s[0]] + tail
  }

  /** Collapsing never touches the last character. */
  lemma {:induction false} CollapseKeepsLast(s: string)
    requires |s| > 0
    ensures var r := CollapseDashes(s); r[|r| - 1] == s[|s| - 1]
  {
    if |s| >= 2 {
      CollapseKeepsLast(s[1..]);
    }
  }

  predicate AllDashes(d: string)
  {
    forall i :: 0 <= i < |d| ==> d[i] == '-'
  }

  /** A run of dashes followed by a non-dash becomes one dash. */
  lemma {:induction false} CollapseDashRun(d: string, y: string)
    requires |d| > 0 && AllDashes(d)
    requires y == [] || y[0] != '-'
    ensures CollapseDashes(d + y) == "-" + CollapseDashes(y)
  {
    AppendHeadTail(d, y);
    if |d| == 1 {
      assert d[1..] + y == y;
      if y != [] {
        assert (d + y)[1] == y[0];
      }
    } else {
      assert (d + y)[1] == d[1];
      CollapseDashRun(d[1..], y);
    }
  }

  /** What precedes a non-dash character collapses on its own. */
  lemma {:induction false} CollapseAfterNonDash(x: string, t: string)
    requires x == [] || x[|x| - 1] != '-'
    ensures CollapseDashes(x + t) == CollapseDashes(x) + CollapseDashes(t)
  {
    if x == [] {
      assert x + t == t;
    } else {
      AppendHeadTail(x, t);
      var cx, ct := CollapseDashes(x[1..]), CollapseDashes(t);
      if |x| == 1 {
        assert x[1..] + t == t;
        if t == [] {
          assert x + t == x;
        }
      } else {
        assert (x + t)[1] == x[1];
        CollapseAfterNonDash(x[1..], t);
        AppendAssoc([x[0]], cx, ct);
      }
    }
  }

  /** `replace(/--+/g, '-')` puts exactly one dash where a run of dashes
      stood, and leaves both sides of the run as they collapse alone. */
  lemma {:induction false} CollapseSplitsAtRun(x: string, d: string, y: string)
    requires x == [] || x[|x| - 1] != '-'
    requires |d| > 0 && AllDashes(d)
    requires y == [] || y[0] != '-'
    ensures CollapseDashes(x + d + y) == CollapseDashes(x) + "-" + CollapseDashes(y)
  {
    var cx, cy := CollapseDashes(x), CollapseDashes(y);
    AppendAssoc(x, d, y);
    CollapseAfterNonDash(x, d + y);
    CollapseDashRun(d, y);
    AppendAssoc(cx, "-", cy);
  }

  lemma {:induction false} ReplaceAppend(a: string, b: string)
    ensures ReplaceOutsideClass(a + b) == ReplaceOutsideClass(a) + ReplaceOutsideClass(b)
  {
    var l, r := ReplaceOutsideClass(a + b), ReplaceOutsideClass(a) + ReplaceOutsideClass(b);
    assert |l| == |r|;
    forall i | 0 <= i < |l|
      ensures l[i] == r[i]
    {
      if i >= |a| {
        assert (a + b)[i] == b[i - |a|];
      }
    }
  }

  /** Between two letters or digits, any non-empty run of other characters
      (spaces, punctuation, dashes) becomes exactly one dash, and each side
      is slugified on its own. */
  lemma {:induction false} SlugifySeparator(x: string, m: string, y: string)
    requires |x| > 0 && IsAsciiAlnum(x[|x| - 1])
    requires |m| > 0 && forall i :: 0 <= i < |m| ==> !IsAsciiAlnum(m[i])
    requires |y| > 0 && IsAsciiAlnum(y[0])
    ensures Slugify(x + m + y) == Slugify(x) + "-" + Slugify(y)
  {
    var rx, rm, ry := ReplaceOutsideClass(x), ReplaceOutsideClass(m), ReplaceOutsideClass(y);
    ReplaceAppend(x + m, y);
    ReplaceAppend(x, m);
    assert rx[|rx| - 1] == SlugChar(x[|x| - 1]) && rx[|rx| - 1] != '-';
    assert ry[0] == SlugChar(y[0]) && ry[0] != '-';
    assert AllDashes(rm) by {
      forall i | 0 <= i < |rm|
        ensures rm[i] == '-'
      {
        assert !IsAsciiAlnum(m[i]);
      }
    }
    CollapseSplitsAtRun(rx, rm, ry);
  }

  lemma {:induction false} AlnumsOfReplaced(s: string)
    ensures Alnums(ReplaceOutsideClass(s)) == LowerAll(Alnums(s))
  {
    if s != [] {
      AlnumsOfReplaced(s[1..]);
      assert ReplaceOutsideClass(s) == [SlugChar(s[0])] + ReplaceOutsideClass(s[1..]);
      assert ([SlugChar(s[0])] + ReplaceOutsideClass(s[1..]))[1..] == ReplaceOutsideClass(s[1..]);
      if IsAsciiAlnum(s[0]) {
        assert LowerAll([s[0]] + Alnums(s[1..])) == [Lower(s[0])] + LowerAll(Alnums(s[1..]));
      }
    }
  }

  /** `slugify` of sync/util.ts. */
  function Slugify(name: string): (r: string)
    ensures forall i :: 0 <= i < |r| ==> IsSlugChar(r[i])
    ensures NoDoubleDash(r)
    ensures |r| <= |name|
    ensures Alnums(r) == LowerAll(Alnums(name))
  {
    var replaced := ReplaceOutsideClass(name);
    AlnumsOfReplaced(name);
    var r := CollapseDashes(replaced);
    assert forall i :: 0 <= i < |r| ==> r[i] in replaced;
    r
  }

  lemma {:induction false} ReplaceKeepsSlugChars(s: string)
    requires forall i :: 0 <= i < |s| ==> IsSlugChar(s[i])
    ensures ReplaceOutsideClass(s) == s
  {
    forall i | 0 <= i < |s|
      ensures ReplaceOutsideClass(s)[i] == s[i]
    {
      assert IsSlugChar(s[i]);
    }
  }

  /** Slugifying a slug changes nothing. */
  lemma {:induction false} SlugifyIdempotent(name: string)
    ensures Slugify(Slugify(name)) == Slugify(name)
  {
    var r := Slugify(name);
    ReplaceKeepsSlugChars(r);
  }

  /** A name that ends in punctuation gives a slug that ends in a dash:
      the trailing dash is not trimmed. */
  lemma {:induction false} SlugifyKeepsTrailingDash(name: string)
    requires |name| > 0 && !IsAsciiAlnum(name[|name| - 1])
    ensures |Slugify(name)| > 0 && Slugify(name)[|Slugify(name)| - 1] == '-'
  {
    var replaced := ReplaceOutsideClass(name);
    assert replaced[|replaced| - 1] == '-';
    CollapseKeepsLast(replaced);
  }

  lemma SlugifyCollapsesDashes()
    ensures Slugify("a--b") == "a-b"
  {
    assert ReplaceOutsideClass("a--b") == "a--b";
    assert CollapseDashes("-b") == "-b";
    assert CollapseDashes("--b") == "-b";
  }

  // ---------------------------------------------------------------------
  // The order prefix: `name.match(/^(\d+) - (.+)/)`

  /** The greedy `\d+` at the start of `s`: the longest all-digit prefix. */
  function LeadingDigits(s: string): (d: string)
    ensures StartsWith(s, d)
    ensures forall i :: 0 <= i < |d| ==> IsDigit(d[i])
    ensures |d| < |s| ==> !IsDigit(s[|d|])
  {
    if s != [] && IsDigit(s[0]) then [s[0]] + LeadingDigits(s[1..]) else []
  }

  /** The characters JavaScript's `.` does not match. */
  predicate IsLineTerminator(c: char)
  {
    c == '\n' || c == '\r' || c == '\U{2028}' || c == '\U{2029}'
  }

  /** What the greedy `(.+)` takes: everything up to the first line terminator. */
  function LineHead(s: string): (r: string)
    ensures StartsWith(s, r)
    ensures forall i :: 0 <= i < |r| ==> !IsLineTerminator(r[i])
    ensures |r| < |s| ==> IsLineTerminator(s[|r|])
  {
    if s != [] && !IsLineTerminator(s[0]) then [s[0]] + LineHead(s[1..]) else []
  }

  predicate AllDigits(d: string)
  {
    forall i :: 0 <= i < |d| ==> IsDigit(d[i])
  }

  /** `parseInt` of a digit string (as an unbounded natural). */
  function DecimalValue(d: string): nat
    requires AllDigits(d)
  {
    if d == [] then 0 else DecimalValue(d[..|d| - 1]) * 10 + (d[|d| - 1] as int - '0' as int)
  }

  /** The decimal numeral of `n`, without leading zeros. */
  function ToDecimal(n: nat): (d: string)
    ensures |d| > 0 && AllDigits(d)
    ensures DecimalValue(d) == n
  {
    if n < 10 then [('0' as int + n) as char]
    else
      var d := ToDecimal(n / 10) + [('0' as int + n % 10) as char];
      assert d[..|d| - 1] == ToDecimal(n / 10);
      d
  }

  datatype ParsedName = ParsedName(name: string, order: Option<nat>)

  /** `parseNameWithOrder`. */
  function ParseNameWithOrder(name: string): ParsedName
  {
    var digits := LeadingDigits(name);
    var after := name[|digits|..];
    if |digits| > 0 && StartsWith(after, " - ") && LineHead(after[3..]) != [] then
      ParsedName(LineHead(after[3..]), Some(DecimalValue(digits)))
    else
      ParsedName(name, None)
  }

  function NameWithoutOrder(name: string): string
  {
    ParseNameWithOrder(name).name
  }

  function OrderFromName(name: string): Option<nat>
  {
    ParseNameWithOrder(name).order
  }

  /** The pattern `^(\d+) - (.+)`, stated by its parts. */
  ghost predicate HasOrderPrefix(name: string)
  {
    exists digits: string, rest: string ::
      |digits| > 0 && AllDigits(digits) && LineHead(rest) != [] && name == digits + " - " + rest
  }

  lemma {:induction false} LeadingDigitsOfPrefixed(digits: string, rest: string)
    requires |digits| > 0 && AllDigits(digits)
    ensures LeadingDigits(digits + " - " + rest) == digits
  {
    var s := digits + " - " + rest;
    var d := LeadingDigits(s);
    assert forall i :: 0 <= i < |digits| ==> s[i] == digits[i];
    assert s[|digits|] == ' ';
    assert |d| == |digits|;
    assert d == s[..|d|] == digits;
  }

  /** A name `digits + " - " + rest` parses to the value of `digits` and to
      what `(.+)` takes of `rest`. */
  lemma {:induction false} PrefixedNameParses(digits: string, rest: string)
    requires |digits| > 0 && AllDigits(digits)
    requires LineHead(rest) != []
    ensures ParseNameWithOrder(digits + " - " + rest) == ParsedName(LineHead(rest), Some(DecimalValue(digits)))
  {
    var name := digits + " - " + rest;
    LeadingDigitsOfPrefixed(digits, rest);
    assert name[|digits|..] == " - " + rest;
    assert (" - " + rest)[3..] == rest;
  }

  /** The order is present exactly when the name matches the pattern; when
      it is absent the name is returned unchanged. */
  lemma {:induction false} OrderPresentIffPrefixed(name: string)
    ensures OrderFromName(name).Some? <==> HasOrderPrefix(name)
    ensures OrderFromName(name).None? ==> NameWithoutOrder(name) == name
  {
    var digits := LeadingDigits(name);
    var after := name[|digits|..];
    if |digits| > 0 && StartsWith(after, " - ") && LineHead(after[3..]) != [] {
      assert name == digits + " - " + after[3..];
    }
    if HasOrderPrefix(name) {
      var d: string, rest: string :| |d| > 0 && AllDigits(d) && LineHead(rest) != [] && name == d + " - " + rest;
      PrefixedNameParses(d, rest);
    }
  }

  /** Round trip: a numeral, the separator and a one-line name give back the
      number and the name. */
  lemma {:induction false} OrderRoundTrip(n: nat, rest: string)
    requires rest != []
    requires forall i :: 0 <= i < |rest| ==> !IsLineTerminator(rest[i])
    ensures OrderFromName(ToDecimal(n) + " - " + rest) == Some(n)
    ensures NameWithoutOrder(ToDecimal(n) + " - " + rest) == rest
  {
    OneLineHead(rest);
    PrefixedNameParses(ToDecimal(n), rest);
  }

  /** A one-line name is taken whole by `(.+)`. */
  lemma {:induction false} OneLineHead(rest: string)
    requires forall i :: 0 <= i < |rest| ==> !IsLineTerminator(rest[i])
    ensures LineHead(rest) == rest
  {
    var head := LineHead(rest);
    assert |head| == |rest|;
    assert head == rest[..|head|] == rest;
  }

  lemma OrderExampleSetup()
    ensures NameWithoutOrder("10 - Go") == "Go" && OrderFromName("10 - Go") == Some(10)
  {
    assert DecimalValue("10") == 10 by {
      assert "10"[..1] == "1" && "1"[..0] == [];
    }
    assert LineHead("Go") == "Go" by {
      OneLineHead("Go");
    }
    assert "10 - Go" == "10" + " - " + "Go";
    PrefixedNameParses("10", "Go");
  }

  lemma OrderExampleLeadingZeros()
    ensures OrderFromName("007 - Go") == Some(7)
  {
    assert DecimalValue("007") == 7 by {
      assert "007"[..2] == "00" && "00"[..1] == "0" && "0"[..0] == [];
    }
    assert LineHead("Go") == "Go" by {
      OneLineHead("Go");
    }
    assert "007 - Go" == "007" + " - " + "Go";
    PrefixedNameParses("007", "Go");
  }

  lemma OrderExampleNoDigits()
    ensures OrderFromName("Setup") == None && NameWithoutOrder("Setup") == "Setup"
  {
    assert LeadingDigits("Setup") == [];
  }

  lemma OrderExampleNoSeparator()
    ensures OrderFromName("10 -Setup") == None
  {
    LeadingDigitsOfPrefixed("10", "Setup");
    assert "10 - Setup"[..2] == "10";
    assert LeadingDigits("10 -Setup") == "10" by {
      assert "10 -Setup"[2] == ' ';
    }
    assert "10 -Setup"[2..][..3] == " -S";
  }

  lemma OrderExampleEmptyRest()
    ensures OrderFromName("10 - ") == None
  {
    assert LeadingDigits("10 - ") == "10" by {
      assert "10 - "[2] == ' ';
    }
    assert "10 - "[2..][3..] == [];
  }

  /** `(.+)` stops at the first line terminator. */
  lemma OrderExampleMultiLine()
    ensures NameWithoutOrder("2 - One\nTwo") == "One"
  {
    assert LineHead("One\nTwo") == "One" by {
      var h := LineHead("One\nTwo");
      assert "One\nTwo"[3] == '\n';
      assert |h| == 3;
    }
    assert "2 - One\nTwo" == "2" + " - " + "One\nTwo";
    assert ParseNameWithOrder("2" + " - " + "One\nTwo").name == "One" by {
      PrefixedNameParses("2", "One\nTwo");
    }
  }
}
