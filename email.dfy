/**
 * Email validation of the newsletter form: the input is trimmed and then
 * matched against the pattern /^[^\s@]+@[^\s@]+\.[^\s@]+$/.
 */
module Email {

  /** The white-space characters of JavaScript (WhiteSpace and LineTerminator):
      the same set is stripped by `String.prototype.trim` and matched by `\s`. */
  predicate IsSpace(c: char) {
    c in SpaceChars || '\U{2000}' <= c <= '\U{200A}'
  }

  const SpaceChars: set<char> := {
    ' ', '\t', '\n', '\U{B}', '\U{C}', '\r', '\U{A0}', '\U{1680}',
    '\U{2028}', '\U{2029}', '\U{202F}', '\U{205F}', '\U{3000}', '\U{FEFF}'
  }

  predicate AllSpace(s: string) {
    forall i :: 0 <= i < |s| ==> IsSpace(s[i])
  }

  /** Number of white-space characters of `s` from index `lo` on. */
  function LeadingSpaces(s: string, lo: nat): (n: nat)
    requires lo <= |s|
    ensures lo + n <= |s|
    ensures forall k :: lo <= k < lo + n ==> IsSpace(s[k])
    ensures lo + n < |s| ==> !IsSpace(s[lo + n])
    decreases |s| - lo
  {
    if lo == |s| || !IsSpace(s[lo]) then 0 else 1 + LeadingSpaces(s, lo + 1)
  }

  /** Number of white-space characters of `s[lo..hi]` at its end. */
  function TrailingSpaces(s: string, lo: nat, hi: nat): (n: nat)
    requires lo <= hi <= |s|
    ensures lo <= hi - n
    ensures forall k :: hi - n <= k < hi ==> IsSpace(s[k])
    ensures lo < hi - n ==> !IsSpace(s[hi - 1 - n])
  {
    if hi == lo || !IsSpace(s[hi - 1]) then 0 else 1 + TrailingSpaces(s, lo, hi - 1)
  }

  /** `String.prototype.trim`: an infix of `s` between two all-space
      borders that neither starts nor ends with white space. */
  function Trim(s: string): (r: string)
    ensures r == [] || (!IsSpace(r[0]) && !IsSpace(r[|r| - 1]))
    ensures exists i, j :: 0 <= i <= j <= |s| && r == s[i..j] && AllSpace(s[..i]) && AllSpace(s[j..])
    ensures AllSpace(s) ==> r == []
  {
    var i := LeadingSpaces(s, 0);
    var j := |s| - TrailingSpaces(s, i, |s|);
    assert AllSpace(s[..i]) && AllSpace(s[j..]);
    assert i < |s| ==> i < j;
    s[i..j]
  }

  /** Trimming a string without white space at either end gives it back. */
  lemma TrimKeeps(s: string)
    requires s != [] && !IsSpace(s[0]) && !IsSpace(s[|s| - 1])
    ensures Trim(s) == s
  {
  }

  /** One or more characters that are neither white space nor '@': `[^\s@]+`. */
  predicate IsWord(s: string) {
    |s| > 0 && forall i :: 0 <= i < |s| ==> !IsSpace(s[i]) && s[i] != '@'
  }

  /** Reference meaning of the pattern: the string is a word, '@', a word, '.',
      and a word, with nothing before or after. */
  ghost predicate MatchesPattern(s: string) {
    exists local: string, domain: string, tld: string ::
      IsWord(local) && IsWord(domain) && IsWord(tld) && s == local + "@" + domain + "." + tld
  }

  /** Index of the first '@' in `s`, or `|s|` when there is none. */
  function IndexOfAt(s: string): (k: nat)
    ensures k <= |s|
    ensures forall i :: 0 <= i < k ==> s[i] != '@'
    ensures k < |s| ==> s[k] == '@'
  {
    if s == [] || s[0] == '@' then 0 else 1 + IndexOfAt(s[1..])
  }

  predicate NoSpaceOrAt(s: string) {
    forall i :: 0 <= i < |s| ==> !IsSpace(s[i]) && s[i] != '@'
  }

  /** The test as one scan: split at the first '@'; the local part is a
      non-empty word; the rest holds no white space and no '@', and has a '.'
      that is neither its first nor its last character. */
  predicate IsValidEmail(s: string) {
    var k := IndexOfAt(s);
    && k < |s|
    && IsWord(s[..k])
    && var rest := s[k + 1..];
       && NoSpaceOrAt(rest)
       && |rest| >= 3
       && '.' in rest[1..|rest| - 1]
  }

  /** A string the scan accepts decomposes as the pattern says. */
  lemma ValidEmailMatches(s: string)
    requires IsValidEmail(s)
    ensures MatchesPattern(s)
  {
    var k := IndexOfAt(s);
    var rest := s[k + 1..];
    var inner := rest[1..|rest| - 1];
    var d :| 0 <= d < |inner| && inner[d] == '.';
    var j := d + 1;
    var local, domain, tld := s[..k], rest[..j], rest[j + 1..];
    assert rest == domain + "." + tld;
    assert s == local + "@" + rest;
    assert IsWord(domain) by {
      forall i | 0 <= i < |domain| ensures !IsSpace(domain[i]) && domain[i] != '@' {
        assert domain[i] == rest[i];
      }
    }
    assert IsWord(tld) by {
      forall i | 0 <= i < |tld| ensures !IsSpace(tld[i]) && tld[i] != '@' {
        assert tld[i] == rest[j + 1 + i];
      }
    }
    assert s == local + "@" + domain + "." + tld;
  }

  /** A string of the pattern's shape passes the scan. */
  lemma MatchesValidEmail(s: string)
    requires MatchesPattern(s)
    ensures IsValidEmail(s)
  {
    var local: string, domain: string, tld: string :|
      IsWord(local) && IsWord(domain) && IsWord(tld) && s == local + "@" + domain + "." + tld;
    var k := |local|;
    assert s[k] == '@';
    forall i | 0 <= i < k ensures s[i] != '@' {
      assert s[i] == local[i];
    }
    assert IndexOfAt(s) == k;
    assert s[..k] == local;
    var rest := s[k + 1..];
    assert rest == domain + "." + tld;
    assert NoSpaceOrAt(rest) by {
      forall i | 0 <= i < |rest| ensures !IsSpace(rest[i]) && rest[i] != '@' {
        if i < |domain| {
          assert rest[i] == domain[i];
        } else if i > |domain| {
          assert rest[i] == tld[i - |domain| - 1];
        }
      }
    }
    assert rest[1..|rest| - 1][|domain| - 1] == '.';
  }

  /** `emailRegex.test(email)` is the single scan above. */
  lemma ValidEmailIffPattern(s: string)
    ensures IsValidEmail(s) <==> MatchesPattern(s)
  {
    if IsValidEmail(s) {
      ValidEmailMatches(s);
    }
    if MatchesPattern(s) {
      MatchesValidEmail(s);
    }
  }

  /** The newsletter handler's acceptance test: `email` is the trimmed input,
      and it is accepted when non-empty and matched by the pattern. */
  predicate Accepts(input: string) {
    var email := Trim(input);
    email != [] && IsValidEmail(email)
  }

  lemma AcceptsIffPattern(input: string)
    ensures Accepts(input) <==> MatchesPattern(Trim(input))
  {
    ValidEmailIffPattern(Trim(input));
  }

  // Worked examples of the handler's acceptance test.

  lemma ValidEmailExample()
    ensures IsValidEmail("a@b.co")
  {
    var s := "a@b.co";
    assert IndexOfAt(s) == 1 by {
      assert s[0] != '@' && s[1] == '@';
    }
    assert IsWord(s[..1]) by {
      assert s[..1] == "a";
    }
    var rest := s[2..];
    assert rest == "b.co";
    assert NoSpaceOrAt(rest);
    assert rest[1..3][0] == '.';
  }

  lemma AcceptsPlain()
    ensures Accepts("a@b.co")
  {
    TrimKeeps("a@b.co");
    ValidEmailExample();
  }

  lemma AcceptsPadded()
    ensures Accepts(" a@b.co ")
  {
    var s := " a@b.co ";
    assert Trim(s) == "a@b.co" by {
      assert LeadingSpaces(s, 0) == 1 by {
        assert LeadingSpaces(s, 1) == 0;
      }
      assert TrailingSpaces(s, 1, 8) == 1 by {
        assert TrailingSpaces(s, 1, 7) == 0;
      }
      assert s[1..7] == "a@b.co";
    }
    ValidEmailExample();
  }

  /** Not "the last dot": a trailing '.' is still matched by the last `[^\s@]+`. */
  lemma AcceptsTrailingDot()
    ensures Accepts("a@b.c.")
  {
    var s := "a@b.c.";
    TrimKeeps(s);
    assert IndexOfAt(s) == 1 by {
      assert s[0] != '@' && s[1] == '@';
    }
    assert IsWord(s[..1]) by {
      assert s[..1] == "a";
    }
    var rest := s[2..];
    assert rest == "b.c.";
    assert NoSpaceOrAt(rest);
    assert rest[1..3][0] == '.';
  }

  lemma RejectsNoDot()
    ensures !Accepts("a@b")
  {
    var s := "a@b";
    TrimKeeps(s);
    assert IndexOfAt(s) == 1 by {
      assert s[0] != '@' && s[1] == '@';
    }
    assert |s[2..]| == 1;
  }

  lemma RejectsSpaceInLocalPart()
    ensures !Accepts("a @b.co")
  {
    var s := "a @b.co";
    TrimKeeps(s);
    assert IndexOfAt(s) == 2 by {
      assert s[0] != '@' && s[1] != '@' && s[2] == '@';
    }
    assert s[..2][1] == ' ';
  }

  lemma RejectsBlank(input: string)
    requires AllSpace(input)
    ensures !Accepts(input)
  {
  }
}
