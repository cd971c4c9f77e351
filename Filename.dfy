/** The output file name derived from the free-text function description:
    lower-cased, reduced to letters, digits and whitespace, spaces turned
    into underscores, cut to 40 characters, underscores stripped from both
    ends, and `_complete.py` appended. */
module Filename {
  import opened PyStr

  /** How many characters of the cleaned description are kept. */
  const MaxStemLength := 40

  /** What every generated name ends with. */
  const Extension := "_complete.py"

  predicate IsUpper(c: char) {
    'A' <= c <= 'Z'
  }

  /** `str.lower` on one character, for the ASCII letters. */
  function LowerChar(c: char): (l: char)
    ensures !IsUpper(l)
    ensures IsUpper(c) ==> l as int == c as int + 32
    ensures !IsUpper(c) ==> l == c
  {
    if IsUpper(c) then (c as int + 32) as char else c
  }

  /** `s.lower()`: position by position, upper-case ASCII letters become
      lower-case and nothing else changes. */
  function Lower(s: string): (r: string)
    ensures |r| == |s| && forall k :: 0 <= k < |s| ==> r[k] == LowerChar(s[k])
  {
    seq(|s|, k requires 0 <= k < |s| => LowerChar(s[k]))
  }

  /** `str.isalnum` on one character, for the ASCII letters and digits. */
  predicate IsAlnum(c: char) {
    'a' <= c <= 'z' || IsUpper(c) || '0' <= c <= '9'
  }

  /** The comprehension's test: `c.isalnum() or c.isspace()`. */
  predicate Keeps(c: char) {
    IsAlnum(c) || IsSpace(c)
  }

  /** `''.join(c for c in s if c.isalnum() or c.isspace())`: the characters
      that pass the test, in their order; a character is in the result
      exactly when it is in `s` and passes. */
  function KeepAlnumAndSpace(s: string): (r: string)
    ensures |r| <= |s|
    ensures forall c :: c in r <==> c in s && Keeps(c)
  {
    if s == [] then []
    else
      var rest := KeepAlnumAndSpace(s[1..]);
      assert forall c :: c in s <==> c == s[0] || c in s[1..];
      if Keeps(s[0]) then [s[0]] + rest else rest
  }

  /** `s.replace(' ', '_')`: every space, and only a space, becomes an
      underscore. */
  function ReplaceSpaces(s: string): (r: string)
    ensures |r| == |s|
    ensures forall k :: 0 <= k < |s| ==> r[k] == if s[k] == ' ' then '_' else s[k]
  {
    seq(|s|, k requires 0 <= k < |s| => if s[k] == ' ' then '_' else s[k])
  }

  /** `s[:n]`: the longest prefix of `s` not longer than `n`. */
  function Truncate(s: string, n: nat): (r: string)
    ensures |r| == if |s| <= n then |s| else n
    ensures r == s[..|r|]
  {
    if |s| <= n then s else s[..n]
  }

  predicate IsUnderscore(c: char) {
    c == '_'
  }

  /** What may appear before the extension: lower-case ASCII letters,
      digits, underscores, and whitespace other than the plain space. */
  predicate IsStemChar(c: char) {
    'a' <= c <= 'z' || '0' <= c <= '9' || c == '_' || (IsSpace(c) && c != ' ')
  }

  /** `generate_filename`. The name ends in the extension; before it stands a
      stem of at most 40 characters, made only of stem characters, that
      neither starts nor ends with an underscore and may be empty. */
  function GenerateFilename(description: string): (filename: string)
    ensures |filename| >= |Extension| && filename[|filename| - |Extension|..] == Extension
    ensures var stem := filename[..|filename| - |Extension|];
      && |stem| <= MaxStemLength
      && Trimmed(stem, IsUnderscore)
      && (forall k :: 0 <= k < |stem| ==> IsStemChar(stem[k]))
  {
    var lowered := Lower(description);
    var kept := KeepAlnumAndSpace(lowered);
    var underscored := ReplaceSpaces(kept);
    var cut := Truncate(underscored, MaxStemLength);
    var stem := StripBy(cut, IsUnderscore);
    assert forall c :: c in stem ==> IsStemChar(c) by {
      forall c | c in stem ensures IsStemChar(c) {
        assert c in cut;
        var k :| 0 <= k < |underscored| && underscored[k] == c;
        if c != '_' {
          assert kept[k] == c && c in kept;
          assert c in lowered;
          var j :| 0 <= j < |lowered| && lowered[j] == c;
        }
      }
    }
    assert stem + Extension == (stem + Extension)[..|stem|] + Extension;
    stem + Extension
  }

  /** No generated name holds a path separator, and its only dot is the one
      of the `.py` extension: it always names a file in the working
      directory. */
  lemma FilenameIsPlainName(description: string)
    ensures '/' !in GenerateFilename(description)
    ensures forall k :: 0 <= k < |GenerateFilename(description)| && GenerateFilename(description)[k] == '.' ==>
        k == |GenerateFilename(description)| - 3
  {
    var f := GenerateFilename(description);
    var n := |f| - |Extension|;
    assert f == f[..n] + Extension;
    StemAndExtensionIsPlain(f[..n], f);
  }

  lemma StemAndExtensionIsPlain(stem: string, f: string)
    requires forall k :: 0 <= k < |stem| ==> IsStemChar(stem[k])
    requires f == stem + Extension
    ensures '/' !in f
    ensures forall k :: 0 <= k < |f| && f[k] == '.' ==> k == |f| - 3
  {
    var n := |stem|;
    forall k | 0 <= k < |f| ensures f[k] != '/' && (f[k] == '.' ==> k == |f| - 3) {
      if k < n {
        assert f[k] == stem[k];
      } else {
        assert f[k] == Extension[k - n];
      }
    }
  }

  /** Filtering changes nothing when every character passes. */
  lemma {:induction false} KeepAllWhenAllPass(s: string)
    requires forall k :: 0 <= k < |s| ==> Keeps(s[k])
    ensures KeepAlnumAndSpace(s) == s
  {
    if s != [] {
      KeepAllWhenAllPass(s[1..]);
    }
  }

  /** The filter keeps one character exactly when it passes the test. */
  lemma KeepOne(c: char)
    ensures KeepAlnumAndSpace([c]) == if Keeps(c) then [c] else []
  {
    assert [c][1..] == [];
  }

  /** The filter works piece by piece: filtering `a + b` is filtering `a`,
      then `b`. With `KeepOne` this fixes the result, order and repeats
      included: the passing characters of `s`, in the order of `s`. */
  lemma {:induction false} KeepConcat(a: string, b: string)
    ensures KeepAlnumAndSpace(a + b) == KeepAlnumAndSpace(a) + KeepAlnumAndSpace(b)
  {
    if a == [] {
      assert a + b == b;
    } else {
      assert (a + b)[0] == a[0] && (a + b)[1..] == a[1..] + b;
      KeepConcat(a[1..], b);
    }
  }

  lemma LowerConcat(a: string, b: string)
    ensures Lower(a + b) == Lower(a) + Lower(b)
  {
    assert forall k :: 0 <= k < |a + b| ==> Lower(a + b)[k] == (Lower(a) + Lower(b))[k];
  }

  lemma {:induction false} KeepNone(s: string)
    requires forall k :: 0 <= k < |s| ==> !Keeps(s[k])
    ensures KeepAlnumAndSpace(s) == []
  {
    if s != [] {
      assert !Keeps(s[0]);
      KeepNone(s[1..]);
    }
  }

  /** Text with no letter, digit or whitespace vanishes from the name. */
  lemma DropPunctuation(p: string)
    requires forall k :: 0 <= k < |p| ==> !Keeps(p[k])
    ensures KeepAlnumAndSpace(Lower(p)) == []
  {
    assert Lower(p) == p;
    KeepNone(p);
  }

  /** Punctuation anywhere in a description does not change the name: the
      name of `a + p + b` is that of `a + b`. */
  lemma PunctuationIgnored(a: string, p: string, b: string)
    requires forall k :: 0 <= k < |p| ==> !Keeps(p[k])
    ensures GenerateFilename(a + p + b) == GenerateFilename(a + b)
  {
    LowerConcat(a + p, b);
    LowerConcat(a, p);
    LowerConcat(a, b);
    DropPunctuation(p);
    KeepConcat(Lower(a) + Lower(p), Lower(b));
    KeepConcat(Lower(a), Lower(p));
    KeepConcat(Lower(a), Lower(b));
    assert KeepAlnumAndSpace(Lower(a + p + b)) == KeepAlnumAndSpace(Lower(a + b));
  }

  /** A description with punctuation. */
  lemma PunctuatedWordsFilename(description: string)
    requires description == "Sort a List!"
    ensures GenerateFilename(description) == "sort_a_list_complete.py"
  {
    assert description == "Sort a List" + "!" + "";
    PunctuationIgnored("Sort a List", "!", "");
    assert "Sort a List" + "" == "Sort a List";
    WordsFilename("Sort a List");
  }

  /** A description of ASCII letters, digits and spaces, at most 40
      characters long and with no space at either end, becomes its
      lower-case form with spaces turned into underscores, plus the
      extension. */
  lemma CleanDescriptionFilename(description: string)
    requires |description| <= MaxStemLength
    requires forall k :: 0 <= k < |description| ==> IsAlnum(description[k]) || description[k] == ' '
    requires description == [] || (description[0] != ' ' && description[|description| - 1] != ' ')
    ensures GenerateFilename(description) == ReplaceSpaces(Lower(description)) + Extension
  {
    var lowered := Lower(description);
    KeepAllWhenAllPass(lowered);
    var underscored := ReplaceSpaces(lowered);
    assert Truncate(underscored, MaxStemLength) == underscored;
    StripByUnique(underscored, IsUnderscore, "", underscored, "");
  }

  /** A description in ordinary words. */
  lemma WordsFilename(description: string)
    requires description == "Sort a List"
    ensures GenerateFilename(description) == "sort_a_list_complete.py"
  {
    CleanDescriptionFilename(description);
    LowerSortAList();
    UnderscoreSortAList();
    SortAListName();
  }

  lemma SortAListName()
    ensures "sort_a_list" + Extension == "sort_a_list_complete.py"
  {
  }

  lemma LowerSortAList()
    ensures Lower("Sort a List") == "sort a list"
  {
  }

  lemma UnderscoreSortAList()
    ensures ReplaceSpaces("sort a list") == "sort_a_list"
  {
  }

  /** A description with no letter or digit gives the bare extension. */
  lemma PunctuationOnlyFilename(description: string)
    requires description == "?!"
    ensures GenerateFilename(description) == "_complete.py"
  {
    var lowered := Lower(description);
    assert lowered == description;
    assert KeepAlnumAndSpace(lowered) == [];
  }
}
