/**
  The string helpers of remedial.js, as plain functions on strings:
  `supplant` (template substitution by the global regular expression
  `{([^{}]*)}`) and `trim` (removal of leading and trailing white space).
 */
module Remedial {
  import opened Js

  // ---------------------------------------------------------------------
  // supplant
  // ---------------------------------------------------------------------

  predicate IsBrace(c: char)
  {
    c == '{' || c == '}'
  }

  predicate BraceFree(t: string)
  {
    forall k :: 0 <= k < |t| ==> !IsBrace(t[k])
  }

  /** Length of the longest brace-free prefix of t: what `[^{}]*` consumes. */
  function BraceFreeLen(t: string): (n: nat)
    ensures n <= |t| && BraceFree(t[..n])
    ensures n < |t| ==> IsBrace(t[n])
  {
    if t == [] || IsBrace(t[0]) then 0
    else
      var n := 1 + BraceFreeLen(t[1..]);
      assert forall k :: 0 < k < n ==> t[..n][k] == t[1..][..n - 1][k - 1];
      n
  }

  /** A piece of a template: a character copied as it is, or a placeholder `{name}`. */
  datatype Piece = Text(c: char) | Hole(name: string)

  /**
    Length of the name when s starts with a brace-free group `{name}`: the
    regular expression tried at the first character. `[^{}]*` takes the
    longest brace-free run, and the group is there when a `}` ends that run.
   */
  function LeadingPlaceholder(s: string): (n: Option<nat>)
    ensures n.Some? ==> n.value + 2 <= |s| && s[0] == '{' && s[n.value + 1] == '}' && BraceFree(s[1..n.value + 1])
  {
    if s != [] && s[0] == '{' && 1 + BraceFreeLen(s[1..]) < |s| && s[1 + BraceFreeLen(s[1..])] == '}' then
      assert s[1..1 + BraceFreeLen(s[1..])] == s[1..][..BraceFreeLen(s[1..])];
      Some(BraceFreeLen(s[1..]))
    else None
  }

  /**
    The left-to-right scan of the global replace: where a brace-free group
    starts, the placeholder is taken whole and the scan resumes after its
    `}`; any other character is copied and the scan moves on by one.
   */
  function Scan(s: string): seq<Piece>
    decreases |s|
  {
    if s == [] then []
    else
      match LeadingPlaceholder(s)
      case Some(n) => [Hole(s[1..n + 1])] + Scan(s[n + 2..])
      case None => [Text(s[0])] + Scan(s[1..])
  }

  /** The text a sequence of pieces was scanned from. */
  function Unscan(ps: seq<Piece>): string
  {
    if ps == [] then []
    else
      match ps[0]
      case Text(c) => [c] + Unscan(ps[1..])
      case Hole(name) => "{" + name + "}" + Unscan(ps[1..])
  }

  /** How the replacement `attributes[name]` reads as text; a missing one reads "undefined". */
  function Render(attributes: map<string, string>, name: string): (t: string)
    ensures name !in attributes ==> t == "undefined"
  {
    if name in attributes then attributes[name] else "undefined"
  }

  /** Each placeholder replaced by its rendering, everything else copied. */
  function Fill(ps: seq<Piece>, attributes: map<string, string>): string
  {
    if ps == [] then []
    else
      match ps[0]
      case Text(c) => [c] + Fill(ps[1..], attributes)
      case Hole(name) => Render(attributes, name) + Fill(ps[1..], attributes)
  }

  /** `s.supplant(attributes)` */
  function Supplant(s: string, attributes: map<string, string>): string
  {
    Fill(Scan(s), attributes)
  }

  /** The scan loses and adds nothing: pieces are consecutive, non-overlapping parts of s. */
  lemma {:induction false} ScanRoundTrip(s: string)
    ensures Unscan(Scan(s)) == s
    decreases |s|
  {
    if s != [] {
      match LeadingPlaceholder(s)
      case Some(n) =>
        ScanRoundTrip(s[n + 2..]);
        RoundTripHoleStep(s, n);
      case None =>
        ScanRoundTrip(s[1..]);
        RoundTripTextStep(s);
    }
  }

  lemma RoundTripHoleStep(s: string, n: nat)
    requires LeadingPlaceholder(s) == Some(n) && Unscan(Scan(s[n + 2..])) == s[n + 2..]
    ensures Unscan(Scan(s)) == s
  {
    var name, rest := s[1..n + 1], s[n + 2..];
    assert Scan(s) == [Hole(name)] + Scan(rest);
    UnscanHole(name, Scan(rest));
    SplitAroundPlaceholder(s, n);
  }

  lemma SplitAroundPlaceholder(s: string, n: nat)
    requires n + 2 <= |s| && s[0] == '{' && s[n + 1] == '}'
    ensures s == "{" + s[1..n + 1] + "}" + s[n + 2..]
  {
    var t := "{" + s[1..n + 1] + "}" + s[n + 2..];
    assert |t| == |s|;
    forall k | 0 <= k < |s| ensures t[k] == s[k] {
      if k == 0 {
      } else if k < n + 1 {
        assert t[k] == s[1..n + 1][k - 1];
      } else if k == n + 1 {
      } else {
        assert t[k] == s[n + 2..][k - n - 2];
      }
    }
  }

  lemma RoundTripTextStep(s: string)
    requires s != [] && LeadingPlaceholder(s) == None && Unscan(Scan(s[1..])) == s[1..]
    ensures Unscan(Scan(s)) == s
  {
    var ps := Scan(s[1..]);
    assert Scan(s) == [Text(s[0])] + ps;
    assert ([Text(s[0])] + ps)[1..] == ps;
    assert s == [s[0]] + s[1..];
  }

  lemma UnscanHole(name: string, ps: seq<Piece>)
    ensures Unscan([Hole(name)] + ps) == "{" + name + "}" + Unscan(ps)
  {
    assert ([Hole(name)] + ps)[1..] == ps;
  }

  /** Every placeholder the scan takes has a brace-free name. */
  lemma {:induction false} ScanNamesBraceFree(s: string, i: nat)
    requires i < |Scan(s)| && Scan(s)[i].Hole?
    ensures BraceFree(Scan(s)[i].name)
    decreases |s|
  {
    match LeadingPlaceholder(s)
    case Some(n) =>
      var ps := Scan(s[n + 2..]);
      assert Scan(s) == [Hole(s[1..n + 1])] + ps;
      if i > 0 {
        assert Scan(s)[i] == ps[i - 1];
        ScanNamesBraceFree(s[n + 2..], i - 1);
      }
    case None =>
      var ps := Scan(s[1..]);
      assert Scan(s) == [Text(s[0])] + ps;
      assert Scan(s)[i] == ps[i - 1];
      ScanNamesBraceFree(s[1..], i - 1);
  }

  /** s[i..j + 1] is a brace-free group `{name}`: a match of the regular expression. */
  predicate PlaceholderAt(s: string, i: int, j: int)
  {
    0 <= i < j < |s| && s[i] == '{' && s[j] == '}' && forall k :: i < k < j ==> !IsBrace(s[k])
  }

  /** The regular expression matches somewhere in s. */
  ghost predicate HasPlaceholder(s: string)
  {
    exists i, j :: PlaceholderAt(s, i, j)
  }

  predicate HasHole(ps: seq<Piece>)
  {
    exists i :: 0 <= i < |ps| && ps[i].Hole?
  }

  lemma BraceFreeLenOf(t: string, n: nat)
    requires n < |t| && BraceFree(t[..n]) && IsBrace(t[n])
    ensures BraceFreeLen(t) == n
  {
  }

  lemma PlaceholderShift(s: string, i: int, j: int)
    requires s != [] && PlaceholderAt(s[1..], i, j)
    ensures PlaceholderAt(s, i + 1, j + 1)
  {
    assert forall k :: i + 1 < k < j + 1 ==> s[k] == s[1..][k - 1];
  }

  lemma PlaceholderUnshift(s: string, i: int, j: int)
    requires PlaceholderAt(s, i, j) && 0 < i
    ensures PlaceholderAt(s[1..], i - 1, j - 1)
  {
    assert forall k :: i - 1 < k < j - 1 ==> s[1..][k] == s[k + 1];
  }

  /** Every placeholder the scan yields is a match of the regular expression in s. */
  lemma {:induction false} ScanHoleIsMatch(s: string)
    requires HasHole(Scan(s))
    ensures HasPlaceholder(s)
    decreases |s|
  {
    if LeadingPlaceholder(s).Some? {
      var n := LeadingPlaceholder(s).value;
      assert forall k :: 0 < k < 1 + n ==> s[k] == s[1..n + 1][k - 1];
      assert PlaceholderAt(s, 0, 1 + n);
    } else {
      var ps := Scan(s);
      assert ps == [Text(s[0])] + Scan(s[1..]);
      var i :| 0 <= i < |ps| && ps[i].Hole?;
      assert Scan(s[1..])[i - 1].Hole?;
      ScanHoleIsMatch(s[1..]);
      var a, b :| PlaceholderAt(s[1..], a, b);
      PlaceholderShift(s, a, b);
    }
  }

  /** Wherever the regular expression matches, the scan yields a placeholder. */
  lemma {:induction false} MatchGivesScanHole(s: string)
    requires HasPlaceholder(s)
    ensures HasHole(Scan(s))
    decreases |s|
  {
    var ps := Scan(s);
    if LeadingPlaceholder(s).Some? {
      assert ps[0].Hole?;
    } else {
      var a, b :| PlaceholderAt(s, a, b);
      if a == 0 {
        var t := s[1..][..b - 1];
        assert BraceFree(t) by {
          forall k | 0 <= k < |t| ensures !IsBrace(t[k]) { assert t[k] == s[k + 1]; }
        }
        BraceFreeLenOf(s[1..], b - 1);
        assert false;
      }
      PlaceholderUnshift(s, a, b);
      MatchGivesScanHole(s[1..]);
      assert ps == [Text(s[0])] + Scan(s[1..]);
      var i :| 0 <= i < |Scan(s[1..])| && Scan(s[1..])[i].Hole?;
      assert ps[i + 1].Hole?;
    }
  }

  /** The scan finds a placeholder exactly when the regular expression matches somewhere. */
  lemma ScanFindsPlaceholder(s: string)
    ensures HasHole(Scan(s)) <==> HasPlaceholder(s)
  {
    if HasHole(Scan(s)) { ScanHoleIsMatch(s); }
    if HasPlaceholder(s) { MatchGivesScanHole(s); }
  }

  /** Without placeholders, filling changes nothing. */
  lemma {:induction false} FillNoHole(ps: seq<Piece>, attributes: map<string, string>)
    requires !HasHole(ps)
    ensures Fill(ps, attributes) == Unscan(ps)
  {
    if ps != [] {
      assert ps[0].Text?;
      assert !HasHole(ps[1..]) by {
        forall i | 0 <= i < |ps[1..]| ensures !ps[1..][i].Hole? { assert ps[1..][i] == ps[i + 1]; }
      }
      FillNoHole(ps[1..], attributes);
    }
  }

  /** A string with no brace-free `{...}` group comes back unchanged. */
  lemma SupplantNoPlaceholder(s: string, attributes: map<string, string>)
    requires !HasPlaceholder(s)
    ensures Supplant(s, attributes) == s
  {
    ScanFindsPlaceholder(s);
    FillNoHole(Scan(s), attributes);
    ScanRoundTrip(s);
  }

  /**
    A leading placeholder is replaced by its rendering, and the scan goes on
    after its `}`: whatever the rendering contains is never scanned again.
   */
  lemma SupplantPlaceholder(name: string, rest: string, attributes: map<string, string>)
    requires BraceFree(name)
    ensures Supplant("{" + name + "}" + rest, attributes) == Render(attributes, name) + Supplant(rest, attributes)
  {
    var s := "{" + name + "}" + rest;
    assert s[1..][..|name|] == name;
    BraceFreeLenOf(s[1..], |name|);
    assert LeadingPlaceholder(s) == Some(|name|);
    assert s[|name| + 2..] == rest;
    assert s[1..|name| + 1] == name;
  }

  /**
    A `{` that does not open a brace-free group (the next brace after it is
    another `{`, or there is none) is copied, and the scan moves on by one.
   */
  lemma SupplantOpenBrace(rest: string, attributes: map<string, string>)
    requires BraceFreeLen(rest) == |rest| || rest[BraceFreeLen(rest)] == '{'
    ensures Supplant("{" + rest, attributes) == "{" + Supplant(rest, attributes)
  {
    var s := "{" + rest;
    assert s[1..] == rest;
    assert LeadingPlaceholder(s) == None;
  }

  /** Any character other than `{` is copied. */
  lemma SupplantOther(c: char, rest: string, attributes: map<string, string>)
    requires c != '{'
    ensures Supplant([c] + rest, attributes) == [c] + Supplant(rest, attributes)
  {
    assert ([c] + rest)[1..] == rest;
  }

  /** An inserted value that itself looks like `{b}` stays literal. */
  lemma SupplantNoRescanExample()
    ensures Supplant("{a}", map["a" := "{b}"]) == "{b}"
  {
    assert "{a}" == "{" + "a" + "}" + "";
    SupplantPlaceholder("a", "", map["a" := "{b}"]);
  }

  /** In `{{a}}` only the inner `{a}` is a placeholder; the outer braces remain. */
  lemma SupplantNestedExample()
    ensures Supplant("{{a}}", map["a" := "X"]) == "{X}"
  {
    var attributes := map["a" := "X"];
    assert "{{a}}" == "{" + "{a}}";
    assert BraceFreeLen("{a}}") == 0;
    SupplantOpenBrace("{a}}", attributes);
    SupplantInnerGroup(attributes);
  }

  lemma SupplantInnerGroup(attributes: map<string, string>)
    requires attributes == map["a" := "X"]
    ensures Supplant("{a}}", attributes) == "X}"
  {
    assert "{a}}" == "{" + "a" + "}" + "}";
    SupplantPlaceholder("a", "}", attributes);
    assert Render(attributes, "a") == "X";
    assert "}" == ['}'] + "";
    SupplantOther('}', "", attributes);
  }

  /** A missing attribute is rendered as the text "undefined". */
  lemma SupplantMissingExample()
    ensures Supplant("x{y}", map[]) == "xundefined"
  {
    assert "x{y}" == ['x'] + "{y}";
    SupplantOther('x', "{y}", map[]);
    assert "{y}" == "{" + "y" + "}" + "";
    SupplantPlaceholder("y", "", map[]);
    assert Render(map[], "y") == "undefined";
    assert Supplant("", map[]) == "";
  }

  // ---------------------------------------------------------------------
  // trim
  // ---------------------------------------------------------------------

  /**
    The characters `\s` matches: the white space characters (tab, vertical
    tab, form feed, space, no-break space, the zero width no-break space and
    the space separators of Unicode) and the line terminators.
   */
  predicate IsSpace(c: char)
  {
    || c == '\t' || c == '\n' || c == '\U{000B}' || c == '\U{000C}' || c == '\r' || c == ' '
    || c == '\U{00A0}' || c == '\U{1680}' || ('\U{2000}' <= c <= '\U{200A}')
    || c == '\U{2028}' || c == '\U{2029}' || c == '\U{202F}' || c == '\U{205F}'
    || c == '\U{3000}' || c == '\U{FEFF}'
  }

  predicate AllSpace(t: string)
  {
    forall k :: 0 <= k < |t| ==> IsSpace(t[k])
  }

  /** Index of the first non-white-space character at or after i: where `^\s*` stops. */
  function CoreStart(s: string, i: nat): (lo: nat)
    requires i <= |s|
    ensures i <= lo <= |s|
    ensures forall k :: i <= k < lo ==> IsSpace(s[k])
    ensures lo < |s| ==> !IsSpace(s[lo])
    decreases |s| - i
  {
    if i < |s| && IsSpace(s[i]) then CoreStart(s, i + 1) else i
  }

  /** Index just after the last non-white-space character of s[lo..e]: where `\s*$` starts. */
  function CoreEnd(s: string, lo: nat, e: nat): (hi: nat)
    requires lo <= e <= |s|
    ensures lo <= hi <= e
    ensures forall k :: hi <= k < e ==> IsSpace(s[k])
    ensures lo < hi ==> !IsSpace(s[hi - 1])
    decreases e
  {
    if lo < e && IsSpace(s[e - 1]) then CoreEnd(s, lo, e - 1) else e
  }

  /**
    `s.trim()`: the captured group of `^\s*(\S*(?:\s+\S+)*)\s*$`, which runs
    from the first to the last non-white-space character. The result is a
    contiguous part of s, between an all-white-space prefix and suffix.
   */
  function Trim(s: string): (r: string)
    ensures r == [] || (!IsSpace(r[0]) && !IsSpace(r[|r| - 1]))
    ensures exists i :: 0 <= i <= |s| - |r| && r == s[i..i + |r|] && AllSpace(s[..i]) && AllSpace(s[i + |r|..])
  {
    var lo := CoreStart(s, 0);
    var hi := CoreEnd(s, lo, |s|);
    assert AllSpace(s[..lo]) by {
      forall k | 0 <= k < lo ensures IsSpace(s[..lo][k]) { assert s[..lo][k] == s[k]; }
    }
    assert AllSpace(s[hi..]) by {
      forall k | 0 <= k < |s| - hi ensures IsSpace(s[hi..][k]) { assert s[hi..][k] == s[hi + k]; }
    }
    assert hi - lo <= |s| - lo;
    s[lo..hi]
  }

  lemma {:induction false} CoreStartAfterSpaces(s: string, i: nat, n: nat)
    requires i <= n <= |s| && (forall k :: i <= k < n ==> IsSpace(s[k])) && (n < |s| ==> !IsSpace(s[n]))
    ensures CoreStart(s, i) == n
    decreases n - i
  {
    if i < n {
      CoreStartAfterSpaces(s, i + 1, n);
    }
  }

  lemma {:induction false} CoreEndBeforeSpaces(s: string, lo: nat, n: nat, e: nat)
    requires lo <= n <= e <= |s| && (forall k :: n <= k < e ==> IsSpace(s[k])) && (lo < n ==> !IsSpace(s[n - 1]))
    ensures CoreEnd(s, lo, e) == n
    decreases e
  {
    if n < e {
      CoreEndBeforeSpaces(s, lo, n, e - 1);
    }
  }

  /**
    The result of trim is determined: whenever s is an all-white-space prefix,
    a core that neither starts nor ends with white space, and an
    all-white-space suffix, trim yields that core, interior white space and all.
   */
  lemma TrimCore(p: string, c: string, q: string)
    requires AllSpace(p) && AllSpace(q)
    requires c == [] || (!IsSpace(c[0]) && !IsSpace(c[|c| - 1]))
    ensures Trim(p + c + q) == c
  {
    var s := p + c + q;
    var lo := if c == [] then |s| else |p|;
    assert forall k :: 0 <= k < |p| ==> s[k] == p[k];
    assert forall k :: |p| + |c| <= k < |s| ==> s[k] == q[k - |p| - |c|];
    assert c != [] ==> s[|p|] == c[0] && s[|p| + |c| - 1] == c[|c| - 1];
    CoreStartAfterSpaces(s, 0, lo);
    CoreEndBeforeSpaces(s, lo, if c == [] then |s| else |p| + |c|, |s|);
    assert c != [] ==> s[|p|..|p| + |c|] == c;
  }

  lemma TrimIdempotent(s: string)
    ensures Trim(Trim(s)) == Trim(s)
  {
    var r := Trim(s);
    assert [] + r + [] == r;
    TrimCore([], r, []);
  }

  /** trim yields "" exactly for the strings that are empty or all white space. */
  lemma TrimEmpty(s: string)
    ensures Trim(s) == [] <==> AllSpace(s)
  {
    if AllSpace(s) {
      assert s + [] + [] == s;
      TrimCore(s, [], []);
    }
    if Trim(s) == [] {
      var i :| 0 <= i <= |s| && AllSpace(s[..i]) && AllSpace(s[i..]);
      assert s == s[..i] + s[i..];
      forall k | 0 <= k < |s| ensures IsSpace(s[k]) {
        if k < i { assert s[k] == s[..i][k]; } else { assert s[k] == s[i..][k - i]; }
      }
    }
  }

  lemma TrimExample()
    ensures Trim("  a b \t") == "a b"
  {
    assert "  a b \t" == "  " + "a b" + " \t";
    TrimCore("  ", "a b", " \t");
  }
}
