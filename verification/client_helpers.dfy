/** The React client's text helpers: truncating text, deriving an excerpt
    from post content, estimating the reading time, checking the shape of
    an email address and deriving a user's initials. `!text` is true only
    for the empty string among strings. */
module ClientHelpers {
  import opened Wrappers
  import opened Seqs
  import opened Text
  import opened JsMath
  import MongooseBlog

  const Ellipsis: string := "..."
  /** `generateExcerpt`'s default `maxLength`. */
  const DefaultExcerptLength: nat := 150
  const WordsPerMinute: nat := 200
  const MaxInitials: nat := 2

  /** `truncateText`: text that fits is returned as is; longer text is cut
      to its first `maxLength` characters followed by "...". */
  function TruncateText(text: string, maxLength: nat): (r: string)
    ensures |text| <= maxLength ==> r == text
    ensures |text| > maxLength ==>
      && |r| == maxLength + |Ellipsis|
      && r[..maxLength] == text[..maxLength] && r[maxLength..] == Ellipsis
  {
    if |text| <= maxLength then text else Prefix(text, maxLength) + Ellipsis
  }

  /** Truncating a truncated text with the same bound changes nothing. */
  lemma TruncateTextIdempotent(text: string, maxLength: nat)
    ensures TruncateText(TruncateText(text, maxLength), maxLength) == TruncateText(text, maxLength)
  {
    var r := TruncateText(text, maxLength);
    if |text| > maxLength {
      assert r == r[..maxLength] + r[maxLength..];
    }
  }

  /** Every whitespace character is a plain space and is followed by no
      other space. */
  predicate SingleSpaced(s: string) {
    forall i | 0 <= i < |s| :: IsSpace(s[i]) ==> s[i] == ' ' && (i + 1 < |s| ==> s[i + 1] != ' ')
  }

  /** Number of leading whitespace characters. */
  function SpaceRun(s: string): (n: nat)
    ensures n <= |s|
    ensures forall i | 0 <= i < n :: IsSpace(s[i])
    ensures n == |s| || !IsSpace(s[n])
  {
    if s == [] || !IsSpace(s[0]) then 0 else SpaceRun(s[1..]) + 1
  }

  /** `s.replace(/\s+/g, ' ')`: every maximal run of whitespace becomes a
      single space; everything else is kept in order. */
  function Collapse(s: string): (r: string)
    ensures r == [] <==> s == []
    ensures r != [] ==> (r[0] == ' ' <==> IsSpace(s[0]))
    ensures r != [] ==> (r[|r| - 1] == ' ' <==> IsSpace(s[|s| - 1]))
    decreases |s|
  {
    if s == [] then []
    else if IsSpace(s[0]) then
      [' '] + Collapse(s[SpaceRun(s)..])
    else
      var n := RunLength(s);
      s[..n] + Collapse(s[n..])
  }

  /** After collapsing there are no tabs or line breaks and no two spaces
      in a row. */
  lemma {:induction false} CollapseSingleSpaced(s: string)
    ensures SingleSpaced(Collapse(s))
    decreases |s|
  {
    if s != [] {
      if IsSpace(s[0]) {
        var n := SpaceRun(s);
        var c := Collapse(s[n..]);
        CollapseSingleSpaced(s[n..]);
        forall i | 0 <= i < |[' '] + c| && IsSpace(([' '] + c)[i])
          ensures ([' '] + c)[i] == ' ' && (i + 1 < |[' '] + c| ==> ([' '] + c)[i + 1] != ' ')
        {
          if i > 0 {
            assert ([' '] + c)[i] == c[i - 1];
          }
        }
      } else {
        var n := RunLength(s);
        var c := Collapse(s[n..]);
        CollapseSingleSpaced(s[n..]);
        var r := s[..n] + c;
        forall i | 0 <= i < |r| && IsSpace(r[i]) ensures r[i] == ' ' && (i + 1 < |r| ==> r[i + 1] != ' ')
        {
          assert i >= n;
          assert r[i] == c[i - n];
          if i + 1 < |r| {
            assert r[i + 1] == c[i + 1 - n];
          }
        }
      }
    }
  }

  /** Leading whitespace separates no word. */
  lemma {:induction false} WordsAfterSpaces(s: string, n: nat)
    requires n <= |s| && forall i | 0 <= i < n :: IsSpace(s[i])
    ensures Words(s) == Words(s[n..])
    decreases n
  {
    if n > 0 {
      WordsAfterSpaces(s[1..], n - 1);
      assert s[1..][n - 1..] == s[n..];
    }
  }

  /** A word followed by whitespace (or by nothing) is the first token. */
  lemma {:induction false} RunLengthOfWord(a: string, x: string)
    requires a != [] && NoSpace(a) && (x == [] || IsSpace(x[0]))
    ensures RunLength(a + x) == |a|
    decreases |a|
  {
    if |a| > 1 {
      assert NoSpace(a[1..]) by {
        forall i | 0 <= i < |a| - 1 ensures !IsSpace(a[1..][i]) {
          assert a[1..][i] == a[i + 1];
        }
      }
      RunLengthOfWord(a[1..], x);
      assert (a + x)[1..] == a[1..] + x;
    } else {
      assert (a + x)[1..] == x;
    }
  }

  lemma WordsOfWord(a: string, x: string)
    requires a != [] && NoSpace(a) && (x == [] || IsSpace(x[0]))
    ensures Words(a + x) == [a] + Words(x)
  {
    RunLengthOfWord(a, x);
    assert (a + x)[..|a|] == a;
    assert (a + x)[|a|..] == x;
  }

  /** Trailing whitespace ends no word. */
  lemma {:induction false} WordsBeforeSpaces(s: string, sp: string)
    requires AllSpace(sp)
    ensures Words(s + sp) == Words(s)
    decreases |s|
  {
    if s == [] {
      assert s + sp == sp;
    } else if IsSpace(s[0]) {
      WordsBeforeSpaces(s[1..], sp);
      SpaceThenWords(s, sp);
    } else {
      var n := RunLength(s);
      WordsBeforeSpaces(s[n..], sp);
      assert s + sp == s[..n] + (s[n..] + sp);
      WordsOfWord(s[..n], s[n..] + sp);
    }
  }

  lemma SpaceThenWords(s: string, sp: string)
    requires s != [] && IsSpace(s[0])
    ensures Words(s + sp) == Words(s[1..] + sp)
  {
    assert (s + sp)[1..] == s[1..] + sp;
  }

  /** Collapsing whitespace keeps every word, in order. */
  lemma {:induction false} CollapseKeepsWords(s: string)
    ensures Words(Collapse(s)) == Words(s)
    decreases |s|
  {
    if s != [] {
      if IsSpace(s[0]) {
        var n := SpaceRun(s);
        var c := Collapse(s[n..]);
        CollapseKeepsWords(s[n..]);
        assert ([' '] + c)[1..] == c;
        WordsAfterSpaces(s, n);
      } else {
        var n := RunLength(s);
        var c := Collapse(s[n..]);
        CollapseKeepsWords(s[n..]);
        WordsOfWord(s[..n], c);
      }
    }
  }

  /** Trimming keeps every word, in order. */
  lemma TrimKeepsWords(s: string)
    ensures Words(Trim(s)) == Words(s)
  {
    var t := TrimStart(s);
    TrimStartSlice(s);
    assert forall i | 0 <= i < |s| - |t| :: s[i] == s[..|s| - |t|][i];
    WordsAfterSpaces(s, |s| - |t|);
    var r := TrimEnd(t);
    TrimEndSlice(t);
    assert t == r + t[|r|..];
    WordsBeforeSpaces(r, t[|r|..]);
  }

  /** A slice of a single-spaced string is single-spaced. */
  lemma SliceSingleSpaced(s: string, lo: nat, hi: nat)
    requires SingleSpaced(s) && lo <= hi <= |s|
    ensures SingleSpaced(s[lo..hi])
  {
    forall i | 0 <= i < hi - lo && IsSpace(s[lo..hi][i])
      ensures s[lo..hi][i] == ' ' && (i + 1 < hi - lo ==> s[lo..hi][i + 1] != ' ')
    {
      assert s[lo..hi][i] == s[lo + i];
      if i + 1 < hi - lo {
        assert s[lo..hi][i + 1] == s[lo + i + 1];
      }
    }
  }

  /** The content with its whitespace collapsed and trimmed, as
      `generateExcerpt` cleans it. */
  function Clean(content: string): (r: string)
    ensures Edgeless(r)
  {
    Trim(Collapse(content))
  }

  /** `generateExcerpt`: empty content gives an empty excerpt; otherwise
      the cleaned content, truncated to `maxLength` characters plus "...".
      The excerpt is never longer than `maxLength + 3`. */
  function GenerateExcerpt(content: string, maxLength: nat): (r: string)
    ensures content == "" ==> r == ""
    ensures content != "" && |Clean(content)| <= maxLength ==> r == Clean(content)
    ensures content != "" && |Clean(content)| > maxLength ==> r == Clean(content)[..maxLength] + Ellipsis
    ensures |r| <= maxLength + |Ellipsis|
  {
    if content == "" then "" else TruncateText(Clean(content), maxLength)
  }

  /** The excerpt is single-spaced: no tab, no line break, no double
      space, whatever the content held. */
  lemma ExcerptSingleSpaced(content: string, maxLength: nat)
    ensures SingleSpaced(GenerateExcerpt(content, maxLength))
  {
    if content != "" {
      CleanSingleSpaced(content);
      TruncateKeepsSingleSpaced(Clean(content), maxLength);
    }
  }

  lemma CleanSingleSpaced(content: string)
    ensures SingleSpaced(Clean(content))
  {
    CollapseSingleSpaced(content);
    TrimKeepsSingleSpaced(Collapse(content));
  }

  /** Trimming cuts a slice out, so single spacing survives it. */
  lemma TrimKeepsSingleSpaced(s: string)
    requires SingleSpaced(s)
    ensures SingleSpaced(Trim(s))
  {
    TrimSlice(s);
    var a := |s| - |TrimStart(s)|;
    SliceSingleSpaced(s, a, a + |Trim(s)|);
  }

  lemma TruncateKeepsSingleSpaced(t: string, maxLength: nat)
    requires SingleSpaced(t)
    ensures SingleSpaced(TruncateText(t, maxLength))
  {
    if |t| > maxLength {
      var r := t[..maxLength] + Ellipsis;
      SliceSingleSpaced(t, 0, maxLength);
      forall i | 0 <= i < |r| && IsSpace(r[i]) ensures r[i] == ' ' && (i + 1 < |r| ==> r[i + 1] != ' ')
      {
        assert i < maxLength;
        assert r[i] == t[..maxLength][i];
        if i + 1 < maxLength {
          assert r[i + 1] == t[..maxLength][i + 1];
        }
      }
    }
  }

  /** Content whose cleaned form fits is shown whole: the excerpt has
      exactly the content's words, in order. */
  lemma ShortExcerptKeepsWords(content: string, maxLength: nat)
    requires |Clean(content)| <= maxLength
    ensures Words(GenerateExcerpt(content, maxLength)) == Words(content)
  {
    if content != "" {
      TrimKeepsWords(Collapse(content));
      CollapseKeepsWords(content);
    }
  }

  /** `word => word.length > 0`. */
  predicate Filled(part: string) {
    part != []
  }

  /** The number of non-empty pieces: the length of the filtered list. */
  function NonEmpty(parts: seq<string>): (n: nat)
    ensures n == |Where(parts, Filled)|
    ensures n <= |parts|
  {
    if parts == [] then 0 else (if parts[0] != [] then 1 else 0) + NonEmpty(parts[1..])
  }

  /** `content.split(' ').filter(word => word.length > 0).length`: only
      the space separates words here, so a tab or a line break does not. */
  function WordCount(s: string): nat {
    NonEmpty(Split(s, ' '))
  }

  /** There is a word exactly when some character is not a space. */
  lemma {:induction false} WordCountPositive(s: string)
    ensures WordCount(s) > 0 <==> exists i | 0 <= i < |s| :: s[i] != ' '
    decreases |s|
  {
    if s != [] {
      WordCountPositive(s[1..]);
      var rest := Split(s[1..], ' ');
      if s[0] == ' ' {
        assert Split(s, ' ') == [[]] + rest;
        assert ([[]] + rest)[1..] == rest;
        assert (exists i | 0 <= i < |s| :: s[i] != ' ') ==> exists i | 0 <= i < |s[1..]| :: s[1..][i] != ' ' by {
          if exists i | 0 <= i < |s| :: s[i] != ' ' {
            var i :| 0 <= i < |s| && s[i] != ' ';
            assert s[1..][i - 1] == s[i];
          }
        }
        assert (exists i | 0 <= i < |s[1..]| :: s[1..][i] != ' ') ==> exists i | 0 <= i < |s| :: s[i] != ' ' by {
          if exists i | 0 <= i < |s[1..]| :: s[1..][i] != ' ' {
            var i :| 0 <= i < |s[1..]| && s[1..][i] != ' ';
            assert s[i + 1] == s[1..][i];
          }
        }
      } else {
        assert Split(s, ' ')[0] != [];
      }
    }
  }

  /** `calculateReadingTime`: empty content reads in no time; otherwise
      the number of 200-word blocks, the last one possibly partial. */
  function CalculateReadingTime(content: string): (minutes: nat)
    ensures content == "" ==> minutes == 0
    ensures (minutes - 1) * WordsPerMinute < WordCount(content) <= minutes * WordsPerMinute
  {
    if content == "" then 0
    else
      var q := CeilDiv(WordCount(content), WordsPerMinute);
      CeilDivUnique(WordCount(content), WordsPerMinute, q);
      q
  }

  /** The estimate is zero exactly for content made of spaces only (or
      nothing). */
  lemma ReadingTimeZeroIffBlank(content: string)
    ensures CalculateReadingTime(content) == 0 <==> forall i | 0 <= i < |content| :: content[i] == ' '
  {
    WordCountPositive(content);
  }

  /** The client never shows a longer reading time than the server
      stores: it counts only the non-empty pieces of the same split. For
      content of spaces only it shows 0 minutes where the server stores 1. */
  lemma ClientReadingTimeAtMostStored(content: string)
    ensures CalculateReadingTime(content) <= MongooseBlog.HookReadTime(content)
    ensures content != "" && (forall i | 0 <= i < |content| :: content[i] == ' ') ==>
      CalculateReadingTime(content) == 0 < MongooseBlog.HookReadTime(content)
  {
    var q := CalculateReadingTime(content);
    var m := MongooseBlog.HookReadTime(content);
    assert WordCount(content) <= MongooseBlog.SpacePieces(content);
    assert (q - 1) * WordsPerMinute < m * WordsPerMinute;
    ReadingTimeZeroIffBlank(content);
  }

  /** One segment of `[^\s@]+`: non-empty, no whitespace, no '@'. */
  predicate Plain(s: string) {
    s != [] && NoSpace(s) && '@' !in s
  }

  /** The regular expression `^[^\s@]+@[^\s@]+\.[^\s@]+$`: a local part,
      '@', a domain head, '.', a domain tail, each a plain segment. The
      head may itself contain dots. */
  predicate EmailShape(s: string) {
    exists a, d | 0 < a < d < |s| - 1 && s[a] == '@' && s[d] == '.' ::
      Plain(s[..a]) && Plain(s[a + 1..d]) && Plain(s[d + 1..])
  }

  predicate IsAt(c: char) {
    c == '@'
  }

  /** `isValidEmail`: the regular expression's verdict, computed by the
      scan below. */
  function IsValidEmail(email: string): (b: bool)
    ensures b <==> EmailShape(email)
  {
    EmailScanMatchesRegex(email);
    EmailScan(email)
  }

  /** The regular expression read as a scan: no whitespace anywhere, a
      first '@' that is not the first character, no later '@', and a '.'
      in the domain neither first nor last. */
  function EmailScan(email: string): bool {
    var at := FindIndex(email, IsAt);
    && at.Some? && at.value > 0 && NoSpace(email)
    && var domain := email[at.value + 1..];
    && '@' !in domain && |domain| >= 3 && '.' in domain[1..|domain| - 1]
  }

  /** The scan accepts exactly the strings the regular expression matches. */
  lemma EmailScanMatchesRegex(email: string)
    ensures EmailScan(email) <==> EmailShape(email)
  {
    if EmailScan(email) {
      ScannedEmailHasShape(email);
    }
    if EmailShape(email) {
      ShapedEmailIsScanned(email);
    }
  }

  lemma NoSpaceSlice(s: string, lo: nat, hi: nat)
    requires NoSpace(s) && lo <= hi <= |s|
    ensures NoSpace(s[lo..hi])
  {
    forall i | 0 <= i < hi - lo ensures !IsSpace(s[lo..hi][i]) {
      assert s[lo..hi][i] == s[lo + i];
    }
  }

  lemma ScannedEmailHasShape(email: string)
    requires EmailScan(email)
    ensures EmailShape(email)
  {
    var a := FindIndex(email, IsAt).value;
    var domain := email[a + 1..];
    var j :| 0 <= j < |domain[1..|domain| - 1]| && domain[1..|domain| - 1][j] == '.';
    var d := a + 2 + j;
    assert email[d] == '.' by { assert email[d] == domain[1 + j]; }
    assert '@' !in email[..a] by {
      forall i | 0 <= i < a ensures email[..a][i] != '@' {
        assert email[..a][i] == email[i];
      }
    }
    assert email[a + 1..d] == domain[..j + 1];
    assert email[d + 1..] == domain[j + 2..];
    assert '@' !in domain[..j + 1] && '@' !in domain[j + 2..] by {
      assert forall x | x in domain[..j + 1] :: x in domain;
      assert forall x | x in domain[j + 2..] :: x in domain;
    }
    NoSpaceSlice(email, 0, a);
    NoSpaceSlice(email, a + 1, d);
    NoSpaceSlice(email, d + 1, |email|);
    assert email[..a] == email[0..a] && email[d + 1..] == email[d + 1..|email|];
    assert Plain(email[..a]) && Plain(email[a + 1..d]) && Plain(email[d + 1..]);
  }

  /** The '@' after a plain local part is the first one. */
  lemma FirstAt(email: string, a: nat)
    requires a < |email| && email[a] == '@' && '@' !in email[..a]
    ensures FindIndex(email, IsAt) == Some(a)
  {
    forall i | 0 <= i < a ensures email[i] != '@' {
      assert email[i] == email[..a][i];
    }
  }

  /** A string made of plain segments and the separators has no
      whitespace. */
  lemma ShapeHasNoSpace(email: string, a: nat, d: nat)
    requires 0 < a < d < |email| - 1 && email[a] == '@' && email[d] == '.'
    requires NoSpace(email[..a]) && NoSpace(email[a + 1..d]) && NoSpace(email[d + 1..])
    ensures NoSpace(email)
  {
    forall i | 0 <= i < |email| ensures !IsSpace(email[i]) {
      if i < a {
        assert email[i] == email[..a][i];
      } else if a < i < d {
        assert email[i] == email[a + 1..d][i - a - 1];
      } else if d < i {
        assert email[i] == email[d + 1..][i - d - 1];
      }
    }
  }

  /** Behind the '@' of the shape there is no other '@', and there is a
      dot neither first nor last. */
  lemma ShapeDomain(email: string, a: nat, d: nat)
    requires 0 < a && a + 1 < d < |email| - 1 && email[a] == '@' && email[d] == '.'
    requires '@' !in email[a + 1..d] && '@' !in email[d + 1..]
    ensures var domain := email[a + 1..]; '@' !in domain && |domain| >= 3 && '.' in domain[1..|domain| - 1]
  {
    var domain := email[a + 1..];
    forall i | 0 <= i < |domain| ensures domain[i] != '@' {
      if i < d - a - 1 {
        assert domain[i] == email[a + 1..d][i];
      } else if i > d - a - 1 {
        assert domain[i] == email[d + 1..][i - (d - a)];
      }
    }
    assert '@' !in domain;
    assert domain[1..|domain| - 1][d - a - 2] == '.';
  }

  lemma ShapedEmailIsScanned(email: string)
    requires EmailShape(email)
    ensures EmailScan(email)
  {
    var a, d :| 0 < a < d < |email| - 1 && email[a] == '@' && email[d] == '.'
      && Plain(email[..a]) && Plain(email[a + 1..d]) && Plain(email[d + 1..]);
    ShapedAtIsScanned(email, a, d);
  }

  lemma ShapedAtIsScanned(email: string, a: nat, d: nat)
    requires 0 < a < d < |email| - 1 && email[a] == '@' && email[d] == '.'
    requires Plain(email[..a]) && Plain(email[a + 1..d]) && Plain(email[d + 1..])
    ensures EmailScan(email)
  {
    FirstAt(email, a);
    ShapeHasNoSpace(email, a, d);
    ShapeDomain(email, a, d);
  }

  /** `words.map(word => word.charAt(0)).join('')`: the first character of
      every non-empty piece, in order (an empty piece adds nothing). */
  function Heads(parts: seq<string>): (r: string)
    ensures |r| == NonEmpty(parts)
    ensures forall k | 0 <= k < |r| :: r[k] == Where(parts, Filled)[k][0]
  {
    if parts == [] then []
    else
      var rest := Heads(parts[1..]);
      var kept := Where(parts[1..], Filled);
      assert Where(parts, Filled) == if Filled(parts[0]) then [parts[0]] + kept else kept;
      if parts[0] == [] then rest
      else
        var r := [parts[0][0]] + rest;
        assert forall k | 1 <= k < |r| :: r[k] == rest[k - 1] && ([parts[0]] + kept)[k] == kept[k - 1];
        r
  }

  /** `getInitials`: the upper-cased first letters of the space-separated
      words, at most two of them. There are exactly as many as there are
      words, up to two, and none is a lower-case letter. */
  function GetInitials(name: string): (r: string)
    ensures |r| == if WordCount(name) < MaxInitials then WordCount(name) else MaxInitials
    ensures forall i | 0 <= i < |r| :: !('a' <= r[i] <= 'z')
    ensures forall i | 0 <= i < |r| :: r[i] == UpperChar(Where(Split(name, ' '), Filled)[i][0])
  {
    if name == "" then "" else Prefix(Upper(Heads(Split(name, ' '))), MaxInitials)
  }

  /** Two words give the first letter of each. */
  lemma InitialsOfTwoWords(first: string, last: string)
    requires first != [] && last != [] && ' ' !in first && ' ' !in last
    ensures GetInitials(first + " " + last) == Upper([first[0], last[0]])
  {
    var parts := [first, last];
    assert Join(parts, ' ') == first + " " + last by {
      assert Join(parts[1..], ' ') == last;
    }
    SplitJoin(parts, ' ');
    assert Heads(parts) == [first[0], last[0]] by {
      assert Heads(parts[1..]) == [last[0]] by {
        assert parts[1..][1..] == [];
      }
    }
  }

  /** Extra spaces in front of a name change nothing. */
  lemma InitialsIgnoreLeadingSpace(name: string)
    ensures GetInitials(" " + name) == GetInitials(name)
  {
    var s := " " + name;
    assert s[1..] == name;
    assert Split(s, ' ') == [[]] + Split(name, ' ');
    assert ([[]] + Split(name, ' '))[1..] == Split(name, ' ');
    if name == "" {
      assert Split(name, ' ') == [[]];
    }
  }
}
