/**
 * The address check both newsletter endpoints use: Python's `re.match` of
 * `^[a-zA-Z0-9._%+-]+@[a-zA-Z0-9.-]+\.[a-zA-Z]{2,}$`. Without MULTILINE,
 * `$` also matches just before a final newline. The pattern is stated as
 * the shape of a match (`Matches`) and checked by a scan (`IsValidEmail`).
 */
module EmailFormat {

  predicate IsLetter(c: char)
  {
    'a' <= c <= 'z' || 'A' <= c <= 'Z'
  }

  predicate IsDigit(c: char)
  {
    '0' <= c <= '9'
  }

  /** `[a-zA-Z0-9._%+-]`. */
  predicate IsLocalChar(c: char)
  {
    IsLetter(c) || IsDigit(c) || c == '.' || c == '_' || c == '%' || c == '+' || c == '-'
  }

  /** `[a-zA-Z0-9.-]`. */
  predicate IsDomainChar(c: char)
  {
    IsLetter(c) || IsDigit(c) || c == '.' || c == '-'
  }

  predicate AllLocal(s: string)
  {
    forall i :: 0 <= i < |s| ==> IsLocalChar(s[i])
  }

  predicate AllDomain(s: string)
  {
    forall i :: 0 <= i < |s| ==> IsDomainChar(s[i])
  }

  predicate AllLetters(s: string)
  {
    forall i :: 0 <= i < |s| ==> IsLetter(s[i])
  }

  /** The pattern matches `s` with `@` at `at` and the final `.` of the address at `dot`. */
  predicate MatchAt(s: string, at: int, dot: int)
  {
    0 < at && at + 1 < dot && dot + 2 < |s| &&
    AllLocal(s[..at]) && s[at] == '@' && AllDomain(s[at + 1..dot]) && s[dot] == '.' &&
    AllLetters(s[dot + 1..])
  }

  /** The whole of `s` matches from `^` to `$`. */
  ghost predicate MatchesCore(s: string)
  {
    exists at, dot :: MatchAt(s, at, dot)
  }

  /** What `re.match` accepts: a matching string, optionally followed by one newline. */
  ghost predicate Matches(email: string)
  {
    MatchesCore(email) || (|email| > 0 && email[|email| - 1] == '\n' && MatchesCore(email[..|email| - 1]))
  }

  /** The index of the first occurrence of `c`, or `|s|`. */
  function Find(s: string, c: char): (r: nat)
    ensures r <= |s| && c !in s[..r] && (r < |s| ==> s[r] == c)
  {
    if |s| == 0 then 0
    else if s[0] == c then 0
    else
      var r := 1 + Find(s[1..], c);
      assert s[..r] == [s[0]] + s[1..][..r - 1];
      r
  }

  /** The index of the last `.` of `s`, or -1. */
  function LastDot(s: string): (r: int)
    ensures -1 <= r < |s|
    ensures r >= 0 ==> s[r] == '.'
    ensures forall i :: r < i < |s| ==> s[i] != '.'
  {
    if |s| == 0 then -1
    else if s[|s| - 1] == '.' then |s| - 1
    else LastDot(s[..|s| - 1])
  }

  /** The scan: local part up to the first `@`, then domain characters with a final `.` followed by at least two letters. */
  predicate ValidCore(s: string)
  {
    var at := Find(s, '@');
    at < |s| && 0 < at && AllLocal(s[..at]) &&
    var rest := s[at + 1..];
    AllDomain(rest) &&
    var d := LastDot(rest);
    d > 0 && |rest| - (d + 1) >= 2 && AllLetters(rest[d + 1..])
  }

  /** `is_valid_email(email)`. */
  predicate IsValidEmail(email: string)
  {
    ValidCore(email) || (|email| > 0 && email[|email| - 1] == '\n' && ValidCore(email[..|email| - 1]))
  }

  lemma ValidCoreMatches(s: string)
    requires ValidCore(s)
    ensures MatchesCore(s)
  {
    var at := Find(s, '@');
    var rest := s[at + 1..];
    var d := LastDot(rest);
    var dot := at + 1 + d;
    assert s[at + 1..dot] == rest[..d];
    assert s[dot + 1..] == rest[d + 1..];
    assert MatchAt(s, at, dot);
  }

  lemma MatchesValidCore(s: string, at: int, dot: int)
    requires MatchAt(s, at, dot)
    ensures ValidCore(s)
  {
    LocalHasNoAt(s[..at]);
    FindIs(s, '@', at);
    var rest := s[at + 1..];
    var k := dot - at - 1;
    DomainAfterAt(s, at, dot);
    LastDotIs(rest, k);
  }

  lemma LocalHasNoAt(s: string)
    requires AllLocal(s)
    ensures '@' !in s
  {
    forall i | 0 <= i < |s| ensures s[i] != '@' {
      assert IsLocalChar(s[i]);
    }
  }

  /** `c` at `at` with no `c` before it is what `Find` finds. */
  lemma FindIs(s: string, c: char, at: int)
    requires 0 <= at < |s| && s[at] == c && c !in s[..at]
    ensures Find(s, c) == at
  {
    var r := Find(s, c);
    NotInPrefix(s, c, r);
    NotInPrefix(s, c, at);
  }

  lemma NotInPrefix(s: string, c: char, n: int)
    requires 0 <= n <= |s| && c !in s[..n]
    ensures forall j :: 0 <= j < n ==> s[j] != c
  {
    forall j | 0 <= j < n ensures s[j] != c {
      assert s[..n][j] == s[j];
    }
  }

  /** A `.` at `k` with none after it is what `LastDot` finds. */
  lemma LastDotIs(s: string, k: int)
    requires 0 <= k < |s| && s[k] == '.' && forall i :: k < i < |s| ==> s[i] != '.'
    ensures LastDot(s) == k
  {
  }

  /** What follows the `@` of a match: domain characters whose last `.` is the match's `dot`. */
  lemma DomainAfterAt(s: string, at: int, dot: int)
    requires MatchAt(s, at, dot)
    ensures var rest, k := s[at + 1..], dot - at - 1;
      AllDomain(rest) && rest[k] == '.' && rest[k + 1..] == s[dot + 1..] &&
      forall i :: k < i < |rest| ==> rest[i] != '.'
  {
    var rest := s[at + 1..];
    var k := dot - at - 1;
    forall i | 0 <= i < |rest| ensures IsDomainChar(rest[i]) {
      if at + 1 + i < dot {
        assert rest[i] == s[at + 1..dot][i];
      } else if at + 1 + i > dot {
        assert rest[i] == s[dot + 1..][at + 1 + i - dot - 1];
      }
    }
    forall i | k < i < |rest| ensures rest[i] != '.' {
      assert rest[i] == s[dot + 1..][i - k - 1];
      assert IsLetter(s[dot + 1..][i - k - 1]);
    }
    assert rest[k + 1..] == s[dot + 1..];
  }

  /** The scan accepts exactly what the pattern matches. */
  lemma IsValidEmailMatches(email: string)
    ensures IsValidEmail(email) <==> Matches(email)
  {
    if ValidCore(email) {
      ValidCoreMatches(email);
    }
    if |email| > 0 && email[|email| - 1] == '\n' && ValidCore(email[..|email| - 1]) {
      ValidCoreMatches(email[..|email| - 1]);
    }
    if MatchesCore(email) {
      var at, dot :| MatchAt(email, at, dot);
      MatchesValidCore(email, at, dot);
    }
    if |email| > 0 && email[|email| - 1] == '\n' && MatchesCore(email[..|email| - 1]) {
      var at, dot :| MatchAt(email[..|email| - 1], at, dot);
      MatchesValidCore(email[..|email| - 1], at, dot);
    }
  }

  function CountChar(s: string, c: char): nat
  {
    if |s| == 0 then 0 else (if s[0] == c then 1 else 0) + CountChar(s[1..], c)
  }

  lemma {:induction false} CountCharAppend(a: string, b: string, c: char)
    ensures CountChar(a + b, c) == CountChar(a, c) + CountChar(b, c)
    decreases |a|
  {
    if |a| > 0 {
      assert (a + b)[1..] == a[1..] + b;
      CountCharAppend(a[1..], b, c);
    } else {
      assert a + b == b;
    }
  }

  lemma {:induction false} CountCharAbsent(s: string, c: char)
    requires c !in s
    ensures CountChar(s, c) == 0
    decreases |s|
  {
    if |s| > 0 {
      CountCharAbsent(s[1..], c);
    }
  }

  lemma MatchOneAt(core: string, at: int, dot: int)
    requires MatchAt(core, at, dot)
    ensures CountChar(core, '@') == 1
  {
    assert '@' !in core[..at] by {
      forall i | 0 <= i < at ensures core[..at][i] != '@' {
        assert IsLocalChar(core[..at][i]);
      }
    }
    assert '@' !in core[at + 1..] by {
      forall i | at + 1 <= i < |core| ensures core[i] != '@' {
        if i < dot {
          assert core[i] == core[at + 1..dot][i - at - 1];
        } else if i > dot {
          assert core[i] == core[dot + 1..][i - dot - 1];
        }
      }
    }
    assert core == core[..at] + [core[at]] + core[at + 1..];
    CountCharAppend(core[..at] + [core[at]], core[at + 1..], '@');
    CountCharAppend(core[..at], [core[at]], '@');
    CountCharAbsent(core[..at], '@');
    CountCharAbsent(core[at + 1..], '@');
  }

  lemma DropNewline(email: string)
    requires |email| > 0 && email[|email| - 1] == '\n'
    ensures email == email[..|email| - 1] + "\n"
  {
    assert email == email[..|email| - 1] + [email[|email| - 1]];
  }

  /** The address without its optional final newline, and where its match puts `@` and the last `.`. */
  lemma AcceptedCore(email: string) returns (core: string, at: int, dot: int)
    requires IsValidEmail(email)
    ensures email == core || email == core + "\n"
    ensures MatchAt(core, at, dot)
  {
    IsValidEmailMatches(email);
    if MatchesCore(email) {
      core := email;
    } else {
      core := email[..|email| - 1];
      DropNewline(email);
    }
    at, dot :| MatchAt(core, at, dot);
  }

  /** An accepted address has exactly one `@`. */
  lemma AcceptedOneAt(email: string)
    requires IsValidEmail(email)
    ensures CountChar(email, '@') == 1
  {
    var core, at, dot := AcceptedCore(email);
    MatchOneAt(core, at, dot);
    if email != core {
      CountCharAppend(core, "\n", '@');
    }
  }

  /** Before an optional final newline, an accepted address ends in `.` and two or more letters. */
  lemma AcceptedEnding(email: string) returns (core: string, tail: string)
    requires IsValidEmail(email)
    ensures email == core || email == core + "\n"
    ensures |tail| >= 2 && AllLetters(tail)
    ensures |core| > |tail| && core[|core| - |tail| - 1] == '.' && core[|core| - |tail|..] == tail
  {
    var at, dot;
    core, at, dot := AcceptedCore(email);
    tail := core[dot + 1..];
    assert |core| - |tail| - 1 == dot;
  }
}
