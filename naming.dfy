/**
 * Names derived from text: the artifact base name (`sanitize_filename` over
 * the identity line with its version suffix), the program label taken from
 * the form title, and the path of the form's encryption key file.
 */
module Naming {
  import opened Wrappers
  import opened Atoms
  import opened Text

  /** The characters `sanitize_filename` keeps: "-_.() ", ASCII letters and digits. */
  predicate Allowed(c: char)
  {
    c == '-' || c == '_' || c == '.' || c == '(' || c == ')' || c == ' '
    || 'a' <= c <= 'z' || 'A' <= c <= 'Z' || '0' <= c <= '9'
  }

  /** `sanitize_filename`: the allowed characters of `s`, in order. */
  function Sanitize(s: string): (r: string)
    ensures forall c :: c in r ==> Allowed(c)
    ensures |r| <= |s|
  {
    if s == [] then []
    else (if Allowed(s[0]) then [s[0]] else []) + Sanitize(s[1..])
  }

  /** Sanitising only deletes characters: the kept ones stay in their order. */
  lemma {:induction false} SanitizeIsSubsequence(s: string)
    ensures IsSubsequence(Sanitize(s), s)
  {
    if s != [] {
      SanitizeIsSubsequence(s[1..]);
      if Allowed(s[0]) {
        assert ([s[0]] + Sanitize(s[1..]))[1..] == Sanitize(s[1..]);
      } else {
        var r := Sanitize(s[1..]);
        assert Sanitize(s) == r;
        if r != [] {
          assert r[0] in r;
          assert r[0] != s[0];
          assert IsSubsequence(r, s) == IsSubsequence(r, s[1..]);
        }
      }
    }
  }

  /** Every allowed character of the input is kept. */
  lemma {:induction false} SanitizeKeepsAllowed(s: string, c: char)
    requires c in s && Allowed(c)
    ensures c in Sanitize(s)
  {
    if s[0] != c {
      SanitizeKeepsAllowed(s[1..], c);
    }
  }

  /** An input made only of allowed characters comes back unchanged. */
  lemma {:induction false} SanitizeAllowedUnchanged(s: string)
    requires forall c :: c in s ==> Allowed(c)
    ensures Sanitize(s) == s
  {
    if s != [] {
      assert s[0] in s;
      SanitizeAllowedUnchanged(s[1..]);
      assert s == [s[0]] + s[1..];
    }
  }

  /** Sanitising twice is sanitising once. */
  lemma SanitizeIdempotent(s: string)
    ensures Sanitize(Sanitize(s)) == Sanitize(s)
  {
    SanitizeAllowedUnchanged(Sanitize(s));
  }

  /** Sanitising a concatenation sanitises the parts. */
  lemma {:induction false} SanitizeAppend(a: string, b: string)
    ensures Sanitize(a + b) == Sanitize(a) + Sanitize(b)
  {
    if a != [] {
      assert (a + b)[1..] == a[1..] + b;
      SanitizeAppend(a[1..], b);
    } else {
      assert a + b == b;
    }
  }

  /** `s.encode("ascii", "ignore")`: the non-ASCII characters dropped. */
  function AsciiIgnore(s: string): (r: string)
    ensures forall c :: c in r ==> c as int < 128
    ensures |r| <= |s|
  {
    if s == [] then []
    else (if s[0] as int < 128 then [s[0]] else []) + AsciiIgnore(s[1..])
  }

  /** Only characters are dropped: what is kept stays in the input's order. */
  lemma {:induction false} AsciiIgnoreIsSubsequence(s: string)
    ensures IsSubsequence(AsciiIgnore(s), s)
  {
    if s != [] {
      AsciiIgnoreIsSubsequence(s[1..]);
      if s[0] as int < 128 {
        assert ([s[0]] + AsciiIgnore(s[1..]))[1..] == AsciiIgnore(s[1..]);
      } else {
        var r := AsciiIgnore(s[1..]);
        assert AsciiIgnore(s) == r;
        if r != [] {
          assert r[0] in r;
          assert r[0] != s[0];
          assert IsSubsequence(r, s) == IsSubsequence(r, s[1..]);
        }
      }
    }
  }

  /** Every ASCII character is kept as often as it occurs; every other one is dropped. */
  lemma {:induction false} AsciiIgnoreCounts(s: string)
    ensures forall c :: multiset(AsciiIgnore(s))[c] == if c as int < 128 then multiset(s)[c] else 0
  {
    if s != [] {
      AsciiIgnoreCounts(s[1..]);
      assert s == [s[0]] + s[1..];
      assert multiset(s) == multiset([s[0]]) + multiset(s[1..]);
      var head := if s[0] as int < 128 then [s[0]] else [];
      assert multiset(AsciiIgnore(s)) == multiset(head) + multiset(AsciiIgnore(s[1..]));
    }
  }

  /** A text of ASCII characters only is encoded unchanged. */
  lemma {:induction false} AsciiIgnoreOfAscii(s: string)
    requires forall c :: c in s ==> c as int < 128
    ensures AsciiIgnore(s) == s
  {
    if s != [] {
      assert s[0] in s;
      assert forall c :: c in s[1..] ==> c in s;
      AsciiIgnoreOfAscii(s[1..]);
      assert s == [s[0]] + s[1..];
    }
  }

  /** Dropping non-ASCII characters before sanitising makes no difference: sanitising drops them anyway. */
  lemma {:induction false} SanitizeAfterAsciiIgnore(s: string)
    ensures Sanitize(AsciiIgnore(s)) == Sanitize(s)
  {
    if s != [] {
      SanitizeAfterAsciiIgnore(s[1..]);
      var head := if s[0] as int < 128 then [s[0]] else [];
      SanitizeAppend(head, AsciiIgnore(s[1..]));
    }
  }

  /** The version suffix `" (v" + str(version) + ")"`. */
  function VersionSuffix(version: int): string
  {
    " (v" + IntToStr(version) + ")"
  }

  /**
   * The artifact base name: the identity line `esp_id - full name - username`,
   * ASCII-encoded with errors ignored, followed by the version suffix, then
   * sanitised.
   */
  function FileName(espId: string, fullName: string, username: string, version: int): string
  {
    Sanitize(AsciiIgnore(espId + " - " + fullName + " - " + username) + VersionSuffix(version))
  }

  /** The version suffix survives sanitising: the base name is the sanitised identity line followed by it. */
  lemma FileNameKeepsVersion(espId: string, fullName: string, username: string, version: int)
    ensures FileName(espId, fullName, username, version)
         == Sanitize(espId + " - " + fullName + " - " + username) + VersionSuffix(version)
    ensures EndsWith(FileName(espId, fullName, username, version), VersionSuffix(version))
  {
    var line := espId + " - " + fullName + " - " + username;
    var suffix := VersionSuffix(version);
    SanitizeAppend(AsciiIgnore(line), suffix);
    SanitizeAfterAsciiIgnore(line);
    var digits := if version < 0 then NatToStr(-version) else NatToStr(version);
    assert forall c :: c in IntToStr(version) ==> c == '-' || c in digits;
    SanitizeAllowedUnchanged(suffix);
  }

  /**
   * The program label from the form title: `" ".join(name.split(" ")[:-1])`,
   * the title without its last space-separated word.
   */
  function ProgramName(formName: string): string
  {
    var words := Split(formName, " ");
    Join(words[..|words| - 1], " ")
  }

  /** A title with a space loses the text after its last space, and that space. */
  lemma ProgramNameDropsLastWord(front: string, last: string)
    requires ' ' !in last
    ensures ProgramName(front + " " + last) == front
  {
    SplitAtLast(front, ' ', last);
    var words := Split(front + " " + last, " ");
    assert words[..|words| - 1] == Split(front, " ");
    JoinSplit(front, " ");
  }

  /** A one-word title gives the empty label. */
  lemma ProgramNameOfOneWord(name: string)
    requires ' ' !in name
    ensures ProgramName(name) == ""
  {
    SplitWithoutSeparator(name, ' ');
  }

  /** The directory holding the forms' encryption keys. */
  const KeyDirectory: string := "/afs/athena.mit.edu/activity/e/esp/passwords/formstack-encryption/"

  /**
   * `discover_enckey`'s path: the lower-cased label split at spaces; two
   * words "prog year" give `prog-medical/year.txt`, three words "season prog
   * year" give `prog-medical/season-year.txt`; any other count gives none
   * (the key is then asked for).
   */
  function EncKeyPath(program: string): Option<string>
  {
    var chunks := Split(Lower(program), " ");
    if |chunks| == 2 then Some(KeyDirectory + chunks[0] + "-medical/" + chunks[1] + ".txt")
    else if |chunks| == 3 then Some(KeyDirectory + chunks[1] + "-medical/" + chunks[0] + "-" + chunks[2] + ".txt")
    else None
  }

  /** "Spark 2014" finds its key at `spark-medical/2014.txt`. */
  lemma EncKeyPathTwoWords(prog: string, year: string)
    requires ' ' !in prog && ' ' !in year
    ensures EncKeyPath(prog + " " + year) == Some(KeyDirectory + Lower(prog) + "-medical/" + Lower(year) + ".txt")
  {
    LowerAppend(prog + " ", year);
    LowerAppend(prog, " ");
    assert Lower(" ") == " ";
    LowerKeepsOut(prog, ' ');
    LowerKeepsOut(year, ' ');
    SplitAtLast(Lower(prog), ' ', Lower(year));
    SplitWithoutSeparator(Lower(prog), ' ');
  }

  /** "Summer HSSP 2013" finds its key at `hssp-medical/summer-2013.txt`. */
  lemma EncKeyPathThreeWords(season: string, prog: string, year: string)
    requires ' ' !in season && ' ' !in prog && ' ' !in year
    ensures EncKeyPath(season + " " + prog + " " + year)
         == Some(KeyDirectory + Lower(prog) + "-medical/" + Lower(season) + "-" + Lower(year) + ".txt")
  {
    var s, p, y := Lower(season), Lower(prog), Lower(year);
    LowerAppend(season + " " + prog + " ", year);
    LowerAppend(season + " " + prog, " ");
    LowerAppend(season + " ", prog);
    LowerAppend(season, " ");
    assert Lower(" ") == " ";
    LowerKeepsOut(season, ' ');
    LowerKeepsOut(prog, ' ');
    LowerKeepsOut(year, ' ');
    assert Lower(season + " " + prog + " " + year) == (s + " " + p) + [' '] + y;
    SplitAtLast(s + " " + p, ' ', y);
    SplitAtLast(s, ' ', p);
    SplitWithoutSeparator(s, ' ');
  }

  /** A one-word label such as "Splash" has no key path, so the key is asked for. */
  lemma EncKeyPathOneWord(program: string)
    requires ' ' !in program
    ensures EncKeyPath(program).None?
  {
    LowerKeepsOut(program, ' ');
    SplitWithoutSeparator(Lower(program), ' ');
  }

  /** Nor has a four-word label such as "Summer HSSP 2013 Medical". */
  lemma EncKeyPathFourWords(a: string, b: string, c: string, d: string)
    requires ' ' !in a && ' ' !in b && ' ' !in c && ' ' !in d
    ensures EncKeyPath(a + " " + b + " " + c + " " + d).None?
  {
    var la, lb, lc, ld := Lower(a), Lower(b), Lower(c), Lower(d);
    LowerAppend(a + " " + b + " " + c + " ", d);
    LowerAppend(a + " " + b + " " + c, " ");
    LowerAppend(a + " " + b + " ", c);
    LowerAppend(a + " " + b, " ");
    LowerAppend(a + " ", b);
    LowerAppend(a, " ");
    assert Lower(" ") == " ";
    LowerKeepsOut(a, ' ');
    LowerKeepsOut(b, ' ');
    LowerKeepsOut(c, ' ');
    LowerKeepsOut(d, ' ');
    assert Lower(a + " " + b + " " + c + " " + d) == (la + " " + lb + " " + lc) + [' '] + ld;
    SplitAtLast(la + " " + lb + " " + lc, ' ', ld);
    assert la + " " + lb + " " + lc == (la + " " + lb) + [' '] + lc;
    SplitAtLast(la + " " + lb, ' ', lc);
    SplitAtLast(la, ' ', lb);
    SplitWithoutSeparator(la, ' ');
  }
}
