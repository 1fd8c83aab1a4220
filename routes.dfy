/**
 * The codepoint routes (config/routes.rb): the canonical /codepoint/:codepoint route,
 * the redirect that normalizes any other /codepoint/ segment, and the /cp/ shortcut.
 *
 * Routes are tried in order and the first whose constraint accepts the segment wins.
 * Segment constraints are anchored: the canonical route takes a segment only when
 * the whole segment is 4 to 6 characters from 0-9A-F.
 */
module Routes {
  import opened RubyString
  import opened Sequences

  /** The outcome of routing a path. */
  datatype Response =
    | Show(codepoint: string)     // pages#show with the canonical segment
    | Redirect(location: string)  // a 301 to this path
    | NotFound                    // no route matches

  const CodepointPrefix: string := "/codepoint/"
  const CpPrefix: string := "/cp/"

  /** The canonical constraint: the whole segment is 4 to 6 upper-case hexadecimal digits. */
  function IsCanonical(s: string): (b: bool)
    ensures b <==> 4 <= |s| <= 6 && AllHex(s) && Upcase(s) == s
  {
    assert AllUpperHex(s) <==> AllHex(s) && Upcase(s) == s by {
      if AllHex(s) && Upcase(s) == s {
        forall i | 0 <= i < |s| ensures IsUpperHexDigit(s[i]) {
          assert Upcase(s)[i] == s[i];
        }
      }
      if AllUpperHex(s) {
        assert forall i :: 0 <= i < |s| ==> Upcase(s)[i] == s[i];
      }
    }
    4 <= |s| <= 6 && AllUpperHex(s)
  }

  // ---------------------------------------------------------------- normalization

  /** Removes a leading "U" or "u", together with one "+" right after it. */
  function StripUPrefix(s: string): (r: string)
    ensures |s| > 0 && (s[0] == 'U' || s[0] == 'u') ==>
      r == (if |s| > 1 && s[1] == '+' then s[2..] else s[1..])
    ensures !(|s| > 0 && (s[0] == 'U' || s[0] == 'u')) ==> r == s
  {
    if |s| > 0 && (s[0] == 'U' || s[0] == 'u') then
      if |s| > 1 && s[1] == '+' then s[2..] else s[1..]
    else s
  }

  /** Drops every character that is not a hexadecimal digit, keeping the others in order. */
  function KeepHexDigits(s: string): (r: string)
    ensures AllHex(r) && |r| <= |s|
    ensures AllHex(s) ==> r == s
    decreases |s|
  {
    if s == [] then []
    else if IsHexDigit(s[0]) then [s[0]] + KeepHexDigits(s[1..])
    else KeepHexDigits(s[1..])
  }

  /** The segment the redirect sends a non-canonical segment to. */
  function Normalize(s: string): (r: string)
    ensures AllUpperHex(r) && |r| >= 4
    ensures var digits := KeepHexDigits(StripUPrefix(s));
      && (|digits| >= 4 ==> |r| == |digits|)
      && (|digits| < 4 ==> |r| == 4)
      && ParseHex(r) == ParseHex(digits)
  {
    var digits := KeepHexDigits(StripUPrefix(s));
    var u := Upcase(digits);
    UpcaseKeepsUpperHex(digits);
    ParseHexIgnoresCase(digits);
    if |u| < 4 then
      PadKeepsUpperHex(u);
      RJust(u, 4, '0')
    else u
  }

  /** Left-padding with zeros keeps a string upper-case hexadecimal and keeps its value. */
  lemma PadKeepsUpperHex(u: string)
    requires AllUpperHex(u) && |u| < 4
    ensures AllUpperHex(RJust(u, 4, '0'))
    ensures ParseHex(RJust(u, 4, '0')) == ParseHex(u)
  {
    var r := RJust(u, 4, '0');
    assert AllHex(u) by {
      forall i | 0 <= i < |u| ensures IsHexDigit(u[i]) {
        assert IsUpperHexDigit(u[i]);
      }
    }
    ParseHexLeadingZeros(4 - |u|, u);
    assert r == Repeat('0', 4 - |u|) + u;
  }

  lemma {:induction false} UpcaseKeepsUpperHex(s: string)
    requires AllHex(s)
    ensures AllUpperHex(Upcase(s))
  {
    forall i | 0 <= i < |s| ensures IsUpperHexDigit(Upcase(s)[i]) {
      assert IsHexDigit(s[i]);
    }
  }

  // ---------------------------------------------------------------- properties

  /** A string of upper-case hexadecimal digits is left alone by every step of the redirect. */
  lemma {:induction false} NormalizeOfUpperHex(s: string)
    requires AllUpperHex(s)
    ensures Normalize(s) == if |s| < 4 then RJust(s, 4, '0') else s
  {
    assert StripUPrefix(s) == s by {
      if |s| > 0 {
        assert IsUpperHexDigit(s[0]);
      }
    }
    assert AllHex(s) by {
      forall i | 0 <= i < |s| ensures IsHexDigit(s[i]) {
        assert IsUpperHexDigit(s[i]);
      }
    }
    assert Upcase(s) == s by {
      forall i | 0 <= i < |s| ensures Upcase(s)[i] == s[i] {
        assert IsUpperHexDigit(s[i]);
      }
    }
  }

  /** Normalizing a normalized segment changes nothing. */
  lemma NormalizeIdempotent(s: string)
    ensures Normalize(Normalize(s)) == Normalize(s)
  {
    NormalizeOfUpperHex(Normalize(s));
  }

  /** A canonical segment is its own normalization. */
  lemma CanonicalIsNormal(s: string)
    requires IsCanonical(s)
    ensures Normalize(s) == s
  {
    NormalizeOfUpperHex(s);
  }

  /** "U" and "+" are not hexadecimal digits, so the prefix removal never changes the digits kept. */
  lemma {:induction false} StripUPrefixRedundant(s: string)
    ensures KeepHexDigits(StripUPrefix(s)) == KeepHexDigits(s)
  {
    if |s| > 0 && (s[0] == 'U' || s[0] == 'u') {
      assert KeepHexDigits(s) == KeepHexDigits(s[1..]);
      if |s| > 1 && s[1] == '+' {
        assert s[1..][1..] == s[2..];
        assert KeepHexDigits(s[1..]) == KeepHexDigits(s[2..]);
      }
    }
  }

  /** The digits of a segment are kept in full: 4 or more digits are never cut short. */
  lemma NormalizeKeepsLongDigits(s: string)
    requires |KeepHexDigits(s)| >= 4
    ensures Normalize(s) == Upcase(KeepHexDigits(s))
  {
    StripUPrefixRedundant(s);
  }

  /** The first example of the redirect's comment: a becomes 000A. */
  lemma NormalizeExampleA()
    ensures Normalize("a") == "000A"
  {
    var s := "a";
    assert StripUPrefix(s) == s;
    assert KeepHexDigits(s) == s by {
      assert s[1..] == [];
    }
    assert Upcase(s) == "A";
    assert Repeat('0', 3) == "000";
    assert RJust("A", 4, '0') == "000A";
  }

  /** The second example: 41 becomes 0041. */
  lemma NormalizeExample41()
    ensures Normalize("41") == "0041"
  {
    var s := "41";
    assert AllUpperHex(s);
    NormalizeOfUpperHex(s);
    assert Repeat('0', 2) == "00";
    assert RJust(s, 4, '0') == "0041";
  }

  /** The third example: 1f600 becomes 1F600. */
  lemma NormalizeExample1F600()
    ensures Normalize("1f600") == "1F600"
  {
    var s := "1f600";
    assert AllHex(s);
    assert KeepHexDigits(s) == s;
    assert StripUPrefix(s) == s;
    assert Upcase(s) == "1F600";
  }

  /** A segment without any hexadecimal digit becomes 0000. */
  lemma NormalizeNoDigits(s: string)
    requires forall i :: 0 <= i < |s| ==> !IsHexDigit(s[i])
    ensures Normalize(s) == "0000"
  {
    StripUPrefixRedundant(s);
    NoDigitsKept(s);
    assert Upcase([]) == [];
    assert RJust([], 4, '0') == "0000";
  }

  lemma {:induction false} NoDigitsKept(s: string)
    requires forall i :: 0 <= i < |s| ==> !IsHexDigit(s[i])
    ensures KeepHexDigits(s) == []
    decreases |s|
  {
    if s != [] {
      NoDigitsKept(s[1..]);
    }
  }

  // ---------------------------------------------------------------- routing, as written

  /** The /codepoint/:codepoint routes, in order: the canonical one, then the normalizing redirect (constraint .+). */
  function CodepointRoute(segment: string): (r: Response)
    ensures IsCanonical(segment) ==> r == Show(segment)
    ensures !IsCanonical(segment) && segment != [] ==> r == Redirect(CodepointPrefix + Normalize(segment))
    ensures segment == [] ==> r == NotFound
  {
    if IsCanonical(segment) then Show(segment)
    else if segment != [] then Redirect(CodepointPrefix + Normalize(segment))
    else NotFound
  }

  /** The /cp/:codepoint shortcut: the segment is passed on unchanged. */
  function CpRoute(segment: string): (r: Response)
    ensures segment != [] ==> r == Redirect(CodepointPrefix + segment)
    ensures segment == [] ==> r == NotFound
  {
    if segment != [] then Redirect(CodepointPrefix + segment) else NotFound
  }

  /** Routing a whole path: the two prefixes, then the segment after them. */
  function Dispatch(path: string): (r: Response)
    ensures CodepointPrefix <= path ==> r == CodepointRoute(path[|CodepointPrefix|..])
  {
    if CodepointPrefix <= path then CodepointRoute(path[|CodepointPrefix|..])
    else if CpPrefix <= path then CpRoute(path[|CpPrefix|..])
    else NotFound
  }

  lemma DispatchCodepoint(segment: string)
    ensures Dispatch(CodepointPrefix + segment) == CodepointRoute(segment)
  {
    DropPrefix(CodepointPrefix, segment);
  }

  lemma DispatchCp(segment: string)
    ensures Dispatch(CpPrefix + segment) == CpRoute(segment)
  {
    assert (CpPrefix + segment)[1] == 'c';
    assert !(CodepointPrefix <= CpPrefix + segment) by {
      assert CodepointPrefix[2] == 'o' && (CpPrefix + segment)[2] == 'p';
    }
    DropPrefix(CpPrefix, segment);
  }

  /**
   * A redirect whose target normalizes to a canonical segment lands on the show page
   * after one more request.
   */
  lemma RedirectLandsOnShow(segment: string)
    requires segment != [] && !IsCanonical(segment) && |Normalize(segment)| <= 6
    ensures Dispatch(CodepointPrefix + segment) == Redirect(CodepointPrefix + Normalize(segment))
    ensures Dispatch(CodepointPrefix + Normalize(segment)) == Show(Normalize(segment))
  {
    DispatchCodepoint(segment);
    DispatchCodepoint(Normalize(segment));
  }

  /** /cp/x goes to /codepoint/x, and from there to the show page of x's normalization. */
  lemma CpReachesShow(segment: string)
    requires segment != [] && |Normalize(segment)| <= 6
    ensures Dispatch(CpPrefix + segment) == Redirect(CodepointPrefix + segment)
    ensures !IsCanonical(segment) ==>
      Dispatch(CodepointPrefix + segment) == Redirect(CodepointPrefix + Normalize(segment))
    ensures IsCanonical(segment) ==> Dispatch(CodepointPrefix + segment) == Show(segment)
    ensures Dispatch(CodepointPrefix + Normalize(segment)) == Show(Normalize(segment))
  {
    DispatchCp(segment);
    DispatchCodepoint(segment);
    DispatchCodepoint(Normalize(segment));
  }

  /**
   * A segment with more than six hexadecimal digits is not canonical and normalizes to
   * itself, so the redirect sends the browser back to the very path it came from.
   */
  lemma RedirectLoop(segment: string)
    requires AllUpperHex(segment) && |segment| > 6
    ensures Dispatch(CodepointPrefix + segment) == Redirect(CodepointPrefix + segment)
  {
    DispatchCodepoint(segment);
    NormalizeOfUpperHex(segment);
  }

  /** The loop on a concrete path: /codepoint/1234567. */
  lemma RedirectLoopExample()
    ensures Dispatch(CodepointPrefix + "1234567") == Redirect(CodepointPrefix + "1234567")
  {
    var s := "1234567";
    assert forall i :: 0 <= i < |s| ==> '0' <= s[i] <= '9';
    RedirectLoop(s);
  }

  // ---------------------------------------------------------------- routing, corrected

  /**
   * The evidently intended redirect: only to a canonical segment. A segment whose digits
   * cannot make a canonical one (more than six of them) gets no route.
   */
  function CanonicalCodepointRoute(segment: string): (r: Response)
    ensures r.Redirect? ==> exists t :: r.location == CodepointPrefix + t && IsCanonical(t)
    ensures IsCanonical(segment) ==> r == Show(segment)
  {
    if IsCanonical(segment) then Show(segment)
    else if segment != [] && |Normalize(segment)| <= 6 then Redirect(CodepointPrefix + Normalize(segment))
    else NotFound
  }

  /** Routing a whole path with the corrected redirect. */
  function CanonicalDispatch(path: string): (r: Response)
    ensures CodepointPrefix <= path ==> r == CanonicalCodepointRoute(path[|CodepointPrefix|..])
  {
    if CodepointPrefix <= path then CanonicalCodepointRoute(path[|CodepointPrefix|..])
    else if CpPrefix <= path then CpRoute(path[|CpPrefix|..])
    else NotFound
  }

  /** With the corrected redirect every /codepoint/ request ends on a show page after at most one redirect, or on no route. */
  lemma CanonicalRedirectTerminates(segment: string)
    ensures var r := CanonicalDispatch(CodepointPrefix + segment);
      && (r.Redirect? ==> CanonicalDispatch(r.location).Show?)
      && (r.Show? ==> IsCanonical(r.codepoint))
  {
    DropPrefix(CodepointPrefix, segment);
    var r := CanonicalDispatch(CodepointPrefix + segment);
    if r.Redirect? {
      var t := Normalize(segment);
      assert r.location == CodepointPrefix + t;
      DropPrefix(CodepointPrefix, t);
    }
  }

  /** The correction changes nothing where the written redirect already worked. */
  lemma CanonicalRouteAgrees(segment: string)
    requires |Normalize(segment)| <= 6
    ensures CanonicalCodepointRoute(segment) == CodepointRoute(segment)
  {
  }
}
