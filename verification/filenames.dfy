/** File-name hygiene shared by the admin upload path and the quiz file download:
    `sanitizeFilename` (written out twice in the source, identically), Node's
    `path.extname` on POSIX and the upload extension allow-list. */
module FileNames {
  import opened JsText

  // ---------------------------------------------------------------------------
  // sanitizeFilename
  // ---------------------------------------------------------------------------

  /** The class `[a-zA-Z0-9._-]`. */
  predicate IsNameChar(c: char) {
    ('a' <= c <= 'z') || ('A' <= c <= 'Z') || ('0' <= c <= '9') || c == '.' || c == '_' || c == '-'
  }

  /** No two adjacent dots anywhere. */
  predicate NoDotPair(s: string) {
    forall i :: 0 <= i < |s| - 1 ==> !(s[i] == '.' && s[i + 1] == '.')
  }

  const MaxNameLength: nat := 255

  /** What a sanitised name looks like: only `[a-zA-Z0-9._-]`, no "..", no leading dot,
      at most 255 characters, which for these ASCII names are also code units. */
  predicate IsSafeName(s: string) {
    && (forall i :: 0 <= i < |s| ==> IsNameChar(s[i]))
    && NoDotPair(s)
    && (|s| > 0 ==> s[0] != '.')
    && |s| <= MaxNameLength
  }

  /** `.replace(/[^a-zA-Z0-9._-]/g, '_')`. Without the `u` flag the class matches code
      units, so a character outside the Basic Multilingual Plane becomes two '_'. */
  function ReplaceForeign(s: string): (r: string)
    ensures AllNameChars(r)
    ensures AllNameChars(s) ==> r == s
    ensures |r| == Length(s)
  {
    if |s| == 0 then ""
    else
      var head := if IsNameChar(s[0]) then [s[0]] else if Units(s[0]) == 2 then "__" else "_";
      var rest := ReplaceForeign(s[1..]);
      assert AllNameChars(s) ==> AllNameChars(s[1..]) by {
        if AllNameChars(s) {
          forall i | 0 <= i < |s[1..]| ensures IsNameChar(s[1..][i]) {
            assert s[1..][i] == s[i + 1];
          }
        }
      }
      assert AllNameChars(head + rest) by {
        forall i | 0 <= i < |head + rest| ensures IsNameChar((head + rest)[i]) {
          if i >= |head| {
            assert (head + rest)[i] == rest[i - |head|];
          }
        }
      }
      assert AllNameChars(s) ==> head == [s[0]] && s == [s[0]] + s[1..];
      head + rest
  }

  /** An emoji in a name becomes two underscores, one per UTF-16 code unit. */
  lemma AstralCharBecomesTwoUnderscores()
    ensures ReplaceForeign("\U{1F600}.txt") == "__.txt"
  {
  }

  /** `.replace(/\.\./g, '')`: pairs of dots are removed scanning left to right, so a run
      of k dots leaves k mod 2 of them. */
  function RemoveDotPairs(s: string): (r: string)
    ensures |r| <= |s|
    ensures forall i :: 0 <= i < |r| ==> r[i] in s
    ensures |s| > 0 && s[0] != '.' ==> |r| > 0 && r[0] == s[0]
    ensures NoDotPair(r)
  {
    if |s| == 0 then ""
    else if |s| >= 2 && s[0] == '.' && s[1] == '.' then
      var r := RemoveDotPairs(s[2..]);
      assert forall i :: 0 <= i < |r| ==> r[i] in s by {
        forall i | 0 <= i < |r| ensures r[i] in s {
          var j :| 0 <= j < |s[2..]| && s[2..][j] == r[i];
          assert s[j + 2] == r[i];
        }
      }
      r
    else
      var t := RemoveDotPairs(s[1..]);
      assert |t| > 0 ==> t[0] != '.' || s[0] != '.' by {
        if |t| > 0 && s[0] == '.' {
          assert |s| >= 2 ==> s[1] != '.';
          assert s[1..][0] == s[1];
        }
      }
      var r := [s[0]] + t;
      assert forall i :: 0 <= i < |r| ==> r[i] in s by {
        forall i | 0 <= i < |r| ensures r[i] in s {
          if i > 0 {
            var j :| 0 <= j < |s[1..]| && s[1..][j] == r[i];
            assert s[j + 1] == r[i];
          }
        }
      }
      r
  }

  /** `.replace(/^\.+/, '')` */
  function StripLeadingDots(s: string): (r: string)
    ensures |r| <= |s| && r == s[|s| - |r|..]
    ensures |r| > 0 ==> r[0] != '.'
  {
    if |s| > 0 && s[0] == '.' then StripLeadingDots(s[1..]) else s
  }

  predicate AllNameChars(s: string) {
    forall i :: 0 <= i < |s| ==> IsNameChar(s[i])
  }

  /** Name characters are ASCII, so a name is as long in code units as in characters. */
  lemma NameTextLength(s: string)
    requires AllNameChars(s)
    ensures Length(s) == |s|
  {
    assert forall i :: 0 <= i < |s| ==> s[i] as int <= 0xFFFF by {
      forall i | 0 <= i < |s| ensures s[i] as int <= 0xFFFF {
        assert IsNameChar(s[i]);
      }
    }
    LengthOfPlainText(s);
  }

  /** Dropping characters from the front keeps the class and the no-".." property. */
  lemma SuffixKeepsShape(s: string, k: nat)
    requires k <= |s| && AllNameChars(s) && NoDotPair(s)
    ensures AllNameChars(s[k..]) && NoDotPair(s[k..])
  {
    var t := s[k..];
    forall i | 0 <= i < |t| ensures IsNameChar(t[i]) {
      assert t[i] == s[i + k];
    }
    forall i | 0 <= i < |t| - 1 ensures !(t[i] == '.' && t[i + 1] == '.') {
      assert t[i] == s[i + k] && t[i + 1] == s[i + 1 + k];
    }
  }

  /** Likewise for dropping characters from the back. */
  lemma PrefixKeepsShape(s: string, k: nat)
    requires k <= |s| && AllNameChars(s) && NoDotPair(s)
    ensures AllNameChars(s[..k]) && NoDotPair(s[..k])
  {
    var t := s[..k];
    forall i | 0 <= i < |t| ensures IsNameChar(t[i]) {
      assert t[i] == s[i];
    }
  }

  /** `sanitizeFilename`: the four rewriting steps in order, ending with
      `.substring(0, 255)`. */
  function SanitizeFilename(name: string): (r: string)
    ensures IsSafeName(r)
  {
    var a := ReplaceForeign(name);
    var b := RemoveDotPairs(a);
    var c := StripLeadingDots(b);
    assert AllNameChars(b);
    SuffixKeepsShape(b, |b| - |c|);
    var r := CutUnits(c, MaxNameLength);
    PrefixKeepsShape(c, |r|);
    r
  }

  lemma {:induction false} RemoveDotPairsKeepsSafe(s: string)
    requires NoDotPair(s)
    ensures RemoveDotPairs(s) == s
  {
    if |s| > 0 {
      assert !(|s| >= 2 && s[0] == '.' && s[1] == '.');
      assert NoDotPair(s[1..]) by {
        forall i | 0 <= i < |s[1..]| - 1 ensures !(s[1..][i] == '.' && s[1..][i + 1] == '.') {
          assert s[1..][i] == s[i + 1] && s[1..][i + 1] == s[i + 2];
        }
      }
      RemoveDotPairsKeepsSafe(s[1..]);
      assert s == [s[0]] + s[1..];
    }
  }

  /** The names sanitising leaves alone are exactly the safe names. */
  lemma SanitizeFixpoint(name: string)
    ensures SanitizeFilename(name) == name <==> IsSafeName(name)
  {
    if IsSafeName(name) {
      assert ReplaceForeign(name) == name;
      RemoveDotPairsKeepsSafe(name);
      NameTextLength(name);
    }
  }

  /** Sanitising an already-sanitised name changes nothing. */
  lemma SanitizeIdempotent(name: string)
    ensures SanitizeFilename(SanitizeFilename(name)) == SanitizeFilename(name)
  {
    SanitizeFixpoint(SanitizeFilename(name));
  }

  // ---------------------------------------------------------------------------
  // path.extname and the upload allow-list
  // ---------------------------------------------------------------------------

  function LastIndex(s: string, c: char): (k: nat)
    requires c in s
    ensures k < |s| && s[k] == c && c !in s[k + 1..]
  {
    if s[|s| - 1] == c then |s| - 1 else
      var k := LastIndex(s[..|s| - 1], c);
      assert s[k + 1..] == s[..|s| - 1][k + 1..] + [s[|s| - 1]];
      k
  }

  /** The last path component, ignoring trailing slashes. */
  function BaseName(path: string): (b: string)
    ensures '/' !in b
  {
    var p := TrimSlashes(path);
    if '/' in p then p[LastIndex(p, '/') + 1..] else p
  }

  function TrimSlashes(s: string): (r: string)
    ensures |r| > 0 ==> r[|r| - 1] != '/'
  {
    if |s| > 0 && s[|s| - 1] == '/' then TrimSlashes(s[..|s| - 1]) else s
  }

  /** `path.extname` on POSIX: from the last dot of the last component to its end, or ""
      when that component has no dot, only a leading dot, or is "..". */
  function ExtName(path: string): (ext: string)
    ensures ext == "" || (ext[0] == '.' && '.' !in ext[1..])
  {
    var b := BaseName(path);
    if '.' !in b || b == ".." then ""
    else
      var k := LastIndex(b, '.');
      if k == 0 then "" else b[k..]
  }

  const AllowedExtensions: seq<string> :=
    [".txt", ".zip", ".pdf", ".jpg", ".jpeg", ".png", ".gif", ".json", ".xml", ".csv"]

  /** `isValidFile`: the lower-cased extension is on the allow-list. */
  function IsValidFile(name: string): (ok: bool)
    ensures ok ==> 4 <= |ExtName(name)| <= 5 && ExtName(name)[0] == '.'
  {
    Lower(ExtName(name)) in AllowedExtensions
  }

  /** An extension: a dot followed by characters none of which is a dot. */
  predicate IsExtension(e: string) {
    |e| >= 2 && e[0] == '.' && '.' !in e[1..]
  }

  lemma AllowedAreExtensions()
    ensures forall e | e in AllowedExtensions :: IsExtension(e)
  {
  }

  /** Lower-casing maps a dot to a dot and nothing else to one. */
  lemma LowerKeepsDots(s: string)
    ensures forall i :: 0 <= i < |s| ==> (Lower(s)[i] == '.' <==> s[i] == '.')
  {
  }

  /** When a name ends with an extension, that is where its last dot is. */
  lemma LastDotOfSuffix(b: string, n: nat)
    requires n < |b| && IsExtension(b[|b| - n..])
    ensures '.' in b && LastIndex(b, '.') == |b| - n
  {
    var tail := b[|b| - n..];
    assert b[|b| - n] == tail[0];
  }

  /** The lower-cased tail of the last component, as long as `e`. */
  function TailOf(name: string, e: string): string {
    var b := BaseName(name);
    if |b| > |e| then Lower(b[|b| - |e|..]) else ""
  }

  lemma ValidFileHasSuffix(name: string)
    requires IsValidFile(name)
    ensures var e := Lower(ExtName(name)); |BaseName(name)| > |e| && TailOf(name, e) == e
  {
    var b := BaseName(name);
    var ext := ExtName(name);
    assert ext != "";
    var k := LastIndex(b, '.');
    assert ext == b[k..] && k > 0;
    assert b[|b| - |ext|..] == ext;
  }

  /** A last component ending (up to case) in an extension has exactly that ending as
      its extension. */
  lemma ExtNameOfSuffix(name: string, e: string)
    requires IsExtension(e) && |BaseName(name)| > |e| && TailOf(name, e) == e
    ensures var b := BaseName(name); ExtName(name) == b[|b| - |e|..]
  {
    var b := BaseName(name);
    LowerSuffixIsExtension(b, e);
    LastDotOfSuffix(b, |e|);
    assert b != ".." by {
      assert |b| > 2;
    }
  }

  /** An ending that lower-cases to an extension is an extension itself. */
  lemma LowerSuffixIsExtension(b: string, e: string)
    requires IsExtension(e) && |b| > |e| && Lower(b[|b| - |e|..]) == e
    ensures IsExtension(b[|b| - |e|..])
  {
    var tail := b[|b| - |e|..];
    LowerKeepsDots(tail);
    assert tail[0] == '.';
    forall i | 0 <= i < |tail| - 1 ensures tail[1..][i] != '.' {
      assert Lower(tail)[i + 1] == e[1..][i];
    }
  }

  /** The allow-list check read from the name's end: a file is accepted exactly when its
      last component is longer than one of the allowed extensions and ends with it,
      ignoring case. */
  lemma ValidFileBySuffix(name: string)
    ensures IsValidFile(name) <==>
      exists e | e in AllowedExtensions :: |BaseName(name)| > |e| && TailOf(name, e) == e
  {
    if IsValidFile(name) {
      ValidFileHasSuffix(name);
    }
    if exists e | e in AllowedExtensions :: |BaseName(name)| > |e| && TailOf(name, e) == e {
      var e :| e in AllowedExtensions && |BaseName(name)| > |e| && TailOf(name, e) == e;
      AllowedAreExtensions();
      ExtNameOfSuffix(name, e);
    }
  }
}
