/** The clean-up of a commit author's email in get_git_info:
    lower-case it, delete every `@users.noreply.github.com`, then delete every
    `+` together with the run of digits just before it (the regular
    expression `\d*\+` replaced by nothing). Characters are ASCII here:
    Python's Unicode lower-casing and Unicode `\d` are approximated by
    A-Z and 0-9. */
module EmailCleanup {

  const NoReply: string := "@users.noreply.github.com"

  function LowerChar(c: char): char
  {
    if 'A' <= c <= 'Z' then (c as int + 32) as char else c
  }

  /** str.lower(), one character at a time. */
  function Lower(s: string): (r: string)
    ensures |r| == |s|
    ensures forall i :: 0 <= i < |s| ==> r[i] == LowerChar(s[i])
  {
    if s == [] then [] else [LowerChar(s[0])] + Lower(s[1..])
  }

  /** str.replace(pat, ""): scan left to right, deleting each occurrence
      found and going on after it (occurrences that only appear once an
      inner one is gone are kept). */
  function RemoveAll(s: string, pat: string): string
    requires |pat| > 0
    decreases |s|
  {
    if |s| < |pat| then s
    else if s[..|pat|] == pat then RemoveAll(s[|pat|..], pat)
    else [s[0]] + RemoveAll(s[1..], pat)
  }

  predicate IsDigit(c: char)
  {
    '0' <= c <= '9'
  }

  /** The length of the run of digits at the start of `s`. */
  function LeadingDigits(s: string): (n: nat)
    ensures n <= |s|
    ensures forall i :: 0 <= i < n ==> IsDigit(s[i])
    ensures n < |s| ==> !IsDigit(s[n])
  {
    if s == [] || !IsDigit(s[0]) then 0 else 1 + LeadingDigits(s[1..])
  }

  /** re.sub('\d*\+', '', s): at each position the pattern takes the longest
      run of digits and then needs a `+`; on a match both go and the scan
      resumes after the `+`, otherwise the character is kept. */
  function StripIdPrefixes(s: string): string
    decreases |s|
  {
    var d := LeadingDigits(s);
    if d < |s| && s[d] == '+' then StripIdPrefixes(s[d + 1..])
    else if s == [] then []
    else [s[0]] + StripIdPrefixes(s[1..])
  }

  /** The whole clean-up of lines 157-159. */
  function CleanEmail(email: string): string
  {
    StripIdPrefixes(RemoveAll(Lower(email), NoReply))
  }

  // ---------------------------------------------------------------------
  // What the regular expression deletes, stated independently.

  /** The first character of `t` is deleted by `\d*\+` exactly when a `+`
      follows it with nothing but digits in between (it may be the `+`). */
  ghost predicate HeadDeleted(t: string)
  {
    exists j :: 0 <= j < |t| && t[j] == '+' && forall k :: 0 <= k < j ==> IsDigit(t[k])
  }

  /** The characters of `s` that are not deleted, in order. */
  ghost function Survivors(s: string): string
  {
    if s == [] then [] else (if HeadDeleted(s) then [] else [s[0]]) + Survivors(s[1..])
  }

  lemma {:induction false} SkipDeleted(s: string, n: nat)
    requires n <= |s|
    requires forall k :: 0 <= k < n ==> HeadDeleted(s[k..])
    ensures Survivors(s) == Survivors(s[n..])
  {
    if n > 0 {
      assert HeadDeleted(s[0..]);
      assert s[0..] == s;
      forall k | 0 <= k < n - 1 ensures HeadDeleted(s[1..][k..]) {
        assert s[1..][k..] == s[k + 1..];
      }
      SkipDeleted(s[1..], n - 1);
      assert s[1..][n - 1..] == s[n..];
    }
  }

  /** The head of `t` is deleted exactly when its run of digits ends in `+`. */
  lemma HeadDeletedAtRunEnd(t: string)
    ensures HeadDeleted(t) <==> LeadingDigits(t) < |t| && t[LeadingDigits(t)] == '+'
  {
    var d := LeadingDigits(t);
    if d < |t| && t[d] == '+' {
      assert forall k :: 0 <= k < d ==> IsDigit(t[k]);
    }
  }

  /** StripIdPrefixes deletes exactly the characters HeadDeleted marks: each
      `+` with the digits immediately to its left, and nothing else. */
  lemma {:induction false} StripKeepsSurvivors(s: string)
    ensures StripIdPrefixes(s) == Survivors(s)
    decreases |s|
  {
    var d := LeadingDigits(s);
    if d < |s| && s[d] == '+' {
      forall k | 0 <= k < d + 1 ensures HeadDeleted(s[k..]) {
        var t := s[k..];
        assert t[d - k] == '+';
        assert forall i :: 0 <= i < d - k ==> IsDigit(t[i]) by {
          forall i | 0 <= i < d - k ensures IsDigit(t[i]) { assert t[i] == s[k + i]; }
        }
      }
      SkipDeleted(s, d + 1);
      StripKeepsSurvivors(s[d + 1..]);
    } else if s != [] {
      HeadDeletedAtRunEnd(s);
      StripKeepsSurvivors(s[1..]);
    }
  }

  /** No `+` survives the clean-up. */
  lemma {:induction false} StripRemovesPlus(s: string)
    ensures '+' !in StripIdPrefixes(s)
    decreases |s|
  {
    var d := LeadingDigits(s);
    if d < |s| && s[d] == '+' {
      StripRemovesPlus(s[d + 1..]);
    } else if s != [] {
      StripRemovesPlus(s[1..]);
    }
  }

  /** A string without `+` has nothing for the pattern to match. */
  lemma {:induction false} StripWithoutPlus(s: string)
    requires '+' !in s
    ensures StripIdPrefixes(s) == s
    decreases |s|
  {
    if s != [] {
      var d := LeadingDigits(s);
      assert s[d..] == [] || s[d] in s;
      assert s == [s[0]] + s[1..];
      StripWithoutPlus(s[1..]);
    }
  }

  /** Deleting the id prefixes twice deletes nothing more. */
  lemma StripIdempotent(s: string)
    ensures StripIdPrefixes(StripIdPrefixes(s)) == StripIdPrefixes(s)
  {
    StripRemovesPlus(s);
    StripWithoutPlus(StripIdPrefixes(s));
  }

  lemma CleanEmailHasNoPlus(email: string)
    ensures '+' !in CleanEmail(email)
  {
    StripRemovesPlus(RemoveAll(Lower(email), NoReply));
  }

  // ---------------------------------------------------------------------
  // The noreply address of a GitHub account.

  lemma {:induction false} LowerAppend(a: string, b: string)
    ensures Lower(a + b) == Lower(a) + Lower(b)
  {
    assert forall i :: 0 <= i < |a + b| ==> Lower(a + b)[i] == (Lower(a) + Lower(b))[i] by {
      forall i | 0 <= i < |a + b| ensures Lower(a + b)[i] == (Lower(a) + Lower(b))[i] {
        if i < |a| { assert (a + b)[i] == a[i]; } else { assert (a + b)[i] == b[i - |a|]; }
      }
    }
  }

  lemma LowerKeeps(s: string)
    requires forall i :: 0 <= i < |s| ==> !('A' <= s[i] <= 'Z')
    ensures Lower(s) == s
  {
  }

  lemma {:induction false} RemoveAllAbsent(s: string, pat: string)
    requires |pat| > 0 && pat[0] !in s
    ensures RemoveAll(s, pat) == s
    decreases |s|
  {
    if |s| >= |pat| {
      assert s[..|pat|][0] == s[0];
      RemoveAllAbsent(s[1..], pat);
    }
  }

  /** When the pattern's first character does not occur again in it, an
      occurrence cannot straddle a boundary just before that character. */
  lemma {:induction false} RemoveAllAppend(p: string, t: string, pat: string)
    requires |pat| > 0 && pat[0] !in pat[1..]
    requires |t| > 0 && t[0] == pat[0]
    ensures RemoveAll(p + t, pat) == RemoveAll(p, pat) + RemoveAll(t, pat)
    decreases |p|
  {
    if p == [] {
      assert p + t == t;
    } else if |p + t| < |pat| {
    } else if |p| >= |pat| {
      assert (p + t)[..|pat|] == p[..|pat|];
      if p[..|pat|] == pat {
        assert (p + t)[|pat|..] == p[|pat|..] + t;
        RemoveAllAppend(p[|pat|..], t, pat);
      } else {
        assert (p + t)[1..] == p[1..] + t;
        RemoveAllAppend(p[1..], t, pat);
      }
    } else {
      assert (p + t)[..|pat|] != pat by {
        assert (p + t)[|p|] == t[0];
        assert pat[1..][|p| - 1] == pat[|p|];
      }
      assert (p + t)[1..] == p[1..] + t;
      RemoveAllAppend(p[1..], t, pat);
    }
  }

  lemma {:induction false} LeadingDigitsOfId(id: string, rest: string)
    requires forall i :: 0 <= i < |id| ==> IsDigit(id[i])
    ensures LeadingDigits(id + "+" + rest) == |id|
    decreases |id|
  {
    if id != [] {
      assert (id + "+" + rest)[1..] == id[1..] + "+" + rest;
      LeadingDigitsOfId(id[1..], rest);
    }
  }

  lemma NoReplyStartsUnique()
    ensures NoReply[0] == '@' && NoReply[0] !in NoReply[1..]
  {
  }

  lemma LowerNoReply()
    ensures Lower(NoReply) == NoReply
  {
    assert forall i :: 0 <= i < |NoReply| ==> !('A' <= NoReply[i] <= 'Z');
    LowerKeeps(NoReply);
  }

  lemma RemoveNoReplyItself()
    ensures RemoveAll(NoReply, NoReply) == []
  {
    assert NoReply[..|NoReply|] == NoReply;
    assert NoReply[|NoReply|..] == [];
  }

  lemma LowerNoReplyAddress(id: string, login: string)
    requires forall i :: 0 <= i < |id| ==> IsDigit(id[i])
    ensures Lower(id + "+" + login + NoReply) == id + "+" + Lower(login) + NoReply
  {
    LowerAppend(id + "+" + login, NoReply);
    LowerAppend(id + "+", login);
    LowerAppend(id, "+");
    LowerKeeps(id);
    LowerNoReply();
    assert Lower("+") == "+";
  }

  lemma RemoveNoReplySuffix(x: string)
    requires '@' !in x
    ensures RemoveAll(x + NoReply, NoReply) == x
  {
    NoReplyStartsUnique();
    RemoveNoReplyItself();
    RemoveAllAppend(x, NoReply, NoReply);
    RemoveAllAbsent(x, NoReply);
    assert x + [] == x;
  }

  lemma LowerKeepsAbsent(s: string, c: char)
    requires c !in s && !('a' <= c <= 'z')
    ensures c !in Lower(s)
  {
    var l := Lower(s);
    forall i | 0 <= i < |l| ensures l[i] != c { assert s[i] != c; }
  }

  /** GitHub's `<id>+<login>@users.noreply.github.com` cleans up to the
      lower-cased login. */
  lemma NoReplyAddress(id: string, login: string)
    requires forall i :: 0 <= i < |id| ==> IsDigit(id[i])
    requires '+' !in login && '@' !in login
    ensures CleanEmail(id + "+" + login + NoReply) == Lower(login)
  {
    var l := Lower(login);
    LowerNoReplyAddress(id, login);
    LowerKeepsAbsent(login, '@');
    LowerKeepsAbsent(login, '+');
    var x := id + "+" + l;
    assert '@' !in x;
    RemoveNoReplySuffix(x);
    LeadingDigitsOfId(id, l);
    assert x[|id| + 1..] == l;
    StripWithoutPlus(l);
  }

  lemma NoReplyExampleSplit()
    ensures "123+alice@users.noreply.github.com" == "123" + "+" + "alice" + NoReply
  {
  }

  lemma NoReplyExample()
    ensures CleanEmail("123+alice@users.noreply.github.com") == "alice"
  {
    NoReplyExampleSplit();
    NoReplyAddress("123", "alice");
    LowerKeeps("alice");
  }

  lemma RemoveAllKeepsBrokenSuffix()
    ensures RemoveAll("@users.noreply.gi+thub.com", NoReply) == "@users.noreply.gi+thub.com"
  {
    var x := "@users.noreply.gi+thub.com";
    assert x[..|NoReply|] != NoReply by { assert x[17] == '+'; }
    assert '@' !in x[1..];
    RemoveAllAbsent(x[1..], NoReply);
  }

  /** Deleting a lone `+` joins the text around it. */
  lemma {:induction false} StripLonePlus(a: string, b: string)
    requires '+' !in a && '+' !in b
    requires a != [] ==> !IsDigit(a[|a| - 1])
    ensures StripIdPrefixes(a + ("+" + b)) == a + b
  {
    StripThrough(a, "+" + b);
    assert ("+" + b)[1..] == b;
    StripWithoutPlus(b);
  }

  lemma BrokenSuffixParts()
    ensures "@users.noreply.gi+thub.com" == "@users.noreply.gi" + ("+" + "thub.com")
    ensures "@users.noreply.gi" + "thub.com" == NoReply
  {
  }

  lemma BrokenSuffixPartsPlain()
    ensures '+' !in "@users.noreply.gi" && '+' !in "thub.com"
    ensures !IsDigit("@users.noreply.gi"[16])
  {
  }

  lemma StripRepairsSuffix()
    ensures StripIdPrefixes("@users.noreply.gi+thub.com") == NoReply
  {
    BrokenSuffixParts();
    BrokenSuffixPartsPlain();
    StripLonePlus("@users.noreply.gi", "thub.com");
  }

  lemma LowerBrokenSuffix()
    ensures Lower("@users.noreply.gi+thub.com") == "@users.noreply.gi+thub.com"
  {
    assert forall i :: 0 <= i < 26 ==> !('A' <= "@users.noreply.gi+thub.com"[i] <= 'Z');
    LowerKeeps("@users.noreply.gi+thub.com");
  }

  lemma CleanBrokenSuffix()
    ensures CleanEmail("@users.noreply.gi+thub.com") == NoReply
  {
    LowerBrokenSuffix();
    RemoveAllKeepsBrokenSuffix();
    StripRepairsSuffix();
  }

  lemma CleanNoReply()
    ensures CleanEmail(NoReply) == ""
  {
    LowerNoReply();
    RemoveNoReplyItself();
  }

  /** Cleaning an already cleaned address can change it again: the first
      pass deletes a `+` and so creates the noreply suffix. */
  lemma CleanEmailNotIdempotent()
    ensures CleanEmail(CleanEmail("@users.noreply.gi+thub.com")) != CleanEmail("@users.noreply.gi+thub.com")
  {
    CleanBrokenSuffix();
    CleanNoReply();
  }

  /** A prefix without `+` that does not end in a digit passes through. */
  lemma {:induction false} StripThrough(a: string, t: string)
    requires '+' !in a
    requires a != [] ==> !IsDigit(a[|a| - 1])
    ensures StripIdPrefixes(a + t) == a + StripIdPrefixes(t)
    decreases |a|
  {
    if a == [] {
      assert a + t == t;
    } else {
      var s := a + t;
      var d := LeadingDigits(s);
      assert s[|a| - 1] == a[|a| - 1];
      assert s[d] == a[d];
      assert s[1..] == a[1..] + t;
      StripThrough(a[1..], t);
    }
  }
}
