/** The rule string of the rule-based variant, `B<digits>/S<digits>`: the
    format guard applied before a grid is built (main.cpp:34) and the parser
    in the rule-based cell's constructor (game.h:170-177). */
module RuleStrings {
  import opened Outcomes

  /** Neighbour counts that bring a dead cell to life and that keep a live
      cell alive, in the order they appear in the string, duplicates kept. */
  datatype Rule = Rule(birth: seq<int>, survive: seq<int>)

  datatype RuleError = BadRuleFormat(rule: string)

  /** Position of the first `ch` in `s`, or `|s|` when there is none. */
  function IndexOf(s: string, ch: char): (r: nat)
    ensures r <= |s|
    ensures r < |s| ==> s[r] == ch
    ensures forall k :: 0 <= k < r ==> s[k] != ch
  {
    if |s| == 0 then 0
    else if s[0] == ch then 0
    else 1 + IndexOf(s[1..], ch)
  }

  /** The guard: the string starts with 'B' and contains "/S". */
  predicate WellFormed(rule: string)
  {
    && |rule| > 0
    && rule[0] == 'B'
    && exists k :: 1 <= k < |rule| && rule[k - 1] == '/' && rule[k] == 'S'
  }

  /** What `c - '0'` gives for a character of the rule string; a digit
      yields its value, any other character some other integer. */
  function DigitValue(ch: char): int
  {
    ch as int - '0' as int
  }

  function DigitChar(d: int): char
    requires 0 <= d <= 9
  {
    (d + '0' as int) as char
  }

  lemma FirstSInRange(rule: string)
    requires WellFormed(rule)
    ensures 1 <= IndexOf(rule, 'S') < |rule|
  {
    var k :| 1 <= k < |rule| && rule[k - 1] == '/' && rule[k] == 'S';
    assert IndexOf(rule, 'S') <= k;
  }

  /** The constructor's parser: the birth counts are the characters from just
      after 'B' up to two before the first 'S', the survival counts every
      character after that 'S'. */
  function ParseRule(rule: string): (r: Rule)
    requires WellFormed(rule)
    ensures |r.birth| + |r.survive| + 2 <= |rule|
    ensures |rule| - |r.survive| - 1 == IndexOf(rule, 'S')
    ensures IndexOf(rule, 'S') >= 2 ==> |r.birth| == IndexOf(rule, 'S') - 2
    ensures IndexOf(rule, 'S') < 2 ==> r.birth == []
    ensures forall k :: 0 <= k < |r.birth| ==> r.birth[k] == DigitValue(rule[k + 1])
    ensures forall k :: 0 <= k < |r.survive| ==> r.survive[k] == DigitValue(rule[IndexOf(rule, 'S') + 1 + k])
  {
    FirstSInRange(rule);
    var sAt := IndexOf(rule, 'S');
    var bCount := if sAt >= 2 then sAt - 2 else 0;
    Rule(seq(bCount, k requires 0 <= k < bCount => DigitValue(rule[k + 1])),
         seq(|rule| - sAt - 1, k requires 0 <= k < |rule| - sAt - 1 => DigitValue(rule[sAt + 1 + k])))
  }

  /** Reading a rule from the configuration: malformed strings are rejected
      before any grid is built. */
  function CheckRule(rule: string): (r: Result<Rule, RuleError>)
    ensures r.Ok? <==> WellFormed(rule)
    ensures r.Ok? ==> r.value == ParseRule(rule)
    ensures r.Err? ==> r.error == BadRuleFormat(rule)
  {
    if WellFormed(rule) then Ok(ParseRule(rule)) else Err(BadRuleFormat(rule))
  }

  predicate IsDigits(ds: seq<int>)
  {
    forall k :: 0 <= k < |ds| ==> 0 <= ds[k] <= 9
  }

  function Digits(ds: seq<int>): (s: string)
    requires IsDigits(ds)
    ensures |s| == |ds|
  {
    seq(|ds|, k requires 0 <= k < |ds| => DigitChar(ds[k]))
  }

  /** The canonical spelling of a rule with single-digit counts. */
  function FormatRule(r: Rule): (s: string)
    requires IsDigits(r.birth) && IsDigits(r.survive)
    ensures WellFormed(s)
  {
    var s := "B" + Digits(r.birth) + "/S" + Digits(r.survive);
    assert s[|r.birth| + 1] == '/' && s[|r.birth| + 2] == 'S';
    s
  }

  predicate IsDigitChar(ch: char)
  {
    '0' <= ch <= '9'
  }

  /** A rule string in canonical form: 'B', digits, "/S", digits. */
  predicate Canonical(rule: string)
  {
    var sAt := IndexOf(rule, 'S');
    && |rule| >= 3
    && rule[0] == 'B'
    && 2 <= sAt < |rule|
    && rule[sAt - 1] == '/'
    && (forall k :: 1 <= k < sAt - 1 ==> IsDigitChar(rule[k]))
    && (forall k :: sAt < k < |rule| ==> IsDigitChar(rule[k]))
  }

  /** Parsing the canonical spelling of a rule gives the rule back. */
  lemma ParseFormat(r: Rule)
    requires IsDigits(r.birth) && IsDigits(r.survive)
    ensures ParseRule(FormatRule(r)) == r
  {
    var s := FormatRule(r);
    var n := |r.birth|;
    assert s[n + 2] == 'S';
    forall k | 0 <= k < n + 2
      ensures s[k] != 'S'
    {
      if 1 <= k <= n {
        assert s[k] == DigitChar(r.birth[k - 1]);
      }
    }
    IndexOfFirst(s, 'S', n + 2);
    var p := ParseRule(s);
    assert |p.survive| == |r.survive|;
    assert p.birth == r.birth by {
      forall k | 0 <= k < n
        ensures p.birth[k] == r.birth[k]
      {
        assert s[k + 1] == DigitChar(r.birth[k]);
      }
    }
    assert p.survive == r.survive by {
      forall k | 0 <= k < |r.survive|
        ensures p.survive[k] == r.survive[k]
      {
        assert s[n + 3 + k] == ("/S" + Digits(r.survive))[k + 2] == DigitChar(r.survive[k]);
        assert p.survive[k] == DigitValue(s[n + 3 + k]);
      }
    }
  }

  /** The guard accepts the canonical spelling of any rule with single-digit
      counts, and hands back exactly that rule. */
  lemma CheckFormatted(r: Rule)
    requires IsDigits(r.birth) && IsDigits(r.survive)
    ensures CheckRule(FormatRule(r)) == Ok(r)
  {
    ParseFormat(r);
  }

  /** A canonical rule string is the spelling of what it parses to. */
  lemma FormatParse(rule: string)
    requires Canonical(rule)
    ensures WellFormed(rule)
    ensures IsDigits(ParseRule(rule).birth) && IsDigits(ParseRule(rule).survive)
    ensures FormatRule(ParseRule(rule)) == rule
  {
    ParsedDigits(rule);
    var f := FormatRule(ParseRule(rule));
    assert |f| == |rule|;
    forall k | 0 <= k < |rule|
      ensures f[k] == rule[k]
    {
      FormatParseAt(rule, k);
    }
  }

  lemma ParsedDigits(rule: string)
    requires Canonical(rule)
    ensures WellFormed(rule)
    ensures |ParseRule(rule).birth| == IndexOf(rule, 'S') - 2
    ensures IsDigits(ParseRule(rule).birth) && IsDigits(ParseRule(rule).survive)
  {
    var sAt := IndexOf(rule, 'S');
    assert rule[sAt - 1] == '/' && rule[sAt] == 'S';
    assert WellFormed(rule);
    var p := ParseRule(rule);
    assert IsDigits(p.birth) by {
      forall k | 0 <= k < |p.birth|
        ensures 0 <= p.birth[k] <= 9
      {
        assert IsDigitChar(rule[k + 1]);
      }
    }
    assert IsDigits(p.survive) by {
      forall k | 0 <= k < |p.survive|
        ensures 0 <= p.survive[k] <= 9
      {
        assert p.survive[k] == DigitValue(rule[sAt + 1 + k]);
        assert IsDigitChar(rule[sAt + 1 + k]);
      }
    }
  }

  /** Character `k` of the canonical spelling. */
  lemma FormatAt(r: Rule, k: int)
    requires IsDigits(r.birth) && IsDigits(r.survive)
    requires 0 <= k < |FormatRule(r)|
    ensures var n := |r.birth|;
      FormatRule(r)[k] ==
        if k == 0 then 'B'
        else if k <= n then DigitChar(r.birth[k - 1])
        else if k == n + 1 then '/'
        else if k == n + 2 then 'S'
        else DigitChar(r.survive[k - n - 3])
  {
    var n := |r.birth|;
    var f := FormatRule(r);
    if k > n + 2 {
      assert f[k] == ("/S" + Digits(r.survive))[k - n - 1];
    }
  }

  lemma FormatParseAt(rule: string, k: int)
    requires Canonical(rule) && 0 <= k < |rule|
    requires WellFormed(rule)
    requires IsDigits(ParseRule(rule).birth) && IsDigits(ParseRule(rule).survive)
    requires |ParseRule(rule).birth| == IndexOf(rule, 'S') - 2
    ensures k < |FormatRule(ParseRule(rule))| && FormatRule(ParseRule(rule))[k] == rule[k]
  {
    var sAt := IndexOf(rule, 'S');
    var p := ParseRule(rule);
    assert |p.survive| == |rule| - sAt - 1;
    FormatAt(p, k);
    if 0 < k <= sAt - 2 {
      BirthAt(rule, k);
    } else if k > sAt {
      SurviveAt(rule, k);
    }
  }

  lemma BirthAt(rule: string, k: int)
    requires Canonical(rule) && WellFormed(rule)
    requires 0 < k <= IndexOf(rule, 'S') - 2
    requires |ParseRule(rule).birth| == IndexOf(rule, 'S') - 2
    ensures DigitChar(ParseRule(rule).birth[k - 1]) == rule[k]
  {
    DigitRoundTrip(rule[k]);
  }

  lemma SurviveAt(rule: string, k: int)
    requires Canonical(rule) && WellFormed(rule)
    requires IndexOf(rule, 'S') < k < |rule|
    requires IsDigits(ParseRule(rule).survive)
    requires |rule| - |ParseRule(rule).survive| - 1 == IndexOf(rule, 'S')
    ensures DigitChar(ParseRule(rule).survive[k - IndexOf(rule, 'S') - 1]) == rule[k]
  {
    DigitRoundTrip(rule[k]);
  }

  lemma DigitRoundTrip(ch: char)
    requires IsDigitChar(ch)
    ensures 0 <= DigitValue(ch) <= 9 && DigitChar(DigitValue(ch)) == ch
  {
  }

  lemma IndexOfFirst(s: string, ch: char, i: nat)
    requires i < |s| && s[i] == ch
    requires forall k :: 0 <= k < i ==> s[k] != ch
    ensures IndexOf(s, ch) == i
  {
  }

  /** Conway's rule, as written in a configuration file. */
  lemma ConwayString()
    ensures WellFormed("B3/S23")
    ensures ParseRule("B3/S23") == Rule([3], [2, 3])
  {
    ParseFormat(Rule([3], [2, 3]));
    assert FormatRule(Rule([3], [2, 3])) == "B3/S23";
  }
}
