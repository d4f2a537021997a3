/** Identifier case conversion and the `module/Cls` format check of
    `arcor2/helpers.py`.  Regular-expression substitutions are written out as
    left-to-right scans, and `str.lower`/`str.title` act on ASCII letters. */
module Names {
  import opened Base

  predicate IsUpper(c: char) { 'A' <= c <= 'Z' }
  predicate IsLower(c: char) { 'a' <= c <= 'z' }
  predicate IsDigit(c: char) { '0' <= c <= '9' }
  /** A cased character in the sense of `str.title`. */
  predicate IsCased(c: char) { IsUpper(c) || IsLower(c) }

  function ToLower(c: char): char
  {
    if IsUpper(c) then (c as int + 32) as char else c
  }

  function ToUpper(c: char): char
  {
    if IsLower(c) then (c as int - 32) as char else c
  }

  /** `str.lower`. */
  function Lower(s: string): (r: string)
    ensures |r| == |s|
    ensures forall i :: 0 <= i < |s| ==> r[i] == ToLower(s[i])
  {
    if |s| == 0 then [] else [ToLower(s[0])] + Lower(s[1..])
  }

  predicate NoUpper(s: string)
  {
    forall i :: 0 <= i < |s| ==> !IsUpper(s[i])
  }

  /** `s` with every occurrence of `c` deleted. */
  function Without(s: string, c: char): string
  {
    if |s| == 0 then []
    else if s[0] == c then Without(s[1..], c)
    else [s[0]] + Without(s[1..], c)
  }

  /** Number of occurrences of `c` in `s`. */
  function Count(s: string, c: char): nat
  {
    if |s| == 0 then 0 else (if s[0] == c then 1 else 0) + Count(s[1..], c)
  }

  lemma {:induction false} WithoutAppend(a: string, b: string, c: char)
    ensures Without(a + b, c) == Without(a, c) + Without(b, c)
  {
    if |a| == 0 {
      assert a + b == b;
    } else {
      assert (a + b)[1..] == a[1..] + b;
      WithoutAppend(a[1..], b, c);
    }
  }

  lemma {:induction false} WithoutLower(s: string)
    ensures Without(Lower(s), '_') == Lower(Without(s, '_'))
  {
    if |s| > 0 {
      assert Lower(s)[1..] == Lower(s[1..]);
      WithoutLower(s[1..]);
    }
  }

  lemma {:induction false} WithoutAbsent(s: string, c: char)
    requires c !in s
    ensures Without(s, c) == s
  {
    if |s| > 0 {
      WithoutAbsent(s[1..], c);
    }
  }

  lemma {:induction false} LowerNoUpper(s: string)
    requires NoUpper(s)
    ensures Lower(s) == s
  {
    if |s| > 0 {
      LowerNoUpper(s[1..]);
    }
  }

  lemma {:induction false} LowerAppend(a: string, b: string)
    ensures Lower(a + b) == Lower(a) + Lower(b)
  {
    if |a| == 0 {
      assert a + b == b;
    } else {
      assert (a + b)[1..] == a[1..] + b;
      LowerAppend(a[1..], b);
    }
  }

  // ---------------------------------------------------------------------
  // camel_case_to_snake_case

  /** End of the run of lower-case letters that starts at `i`. */
  function LowerRunEnd(s: string, i: nat): (j: nat)
    requires i <= |s|
    ensures i <= j <= |s|
    ensures forall k :: i <= k < j ==> IsLower(s[k])
    ensures j == |s| || !IsLower(s[j])
    decreases |s| - i
  {
    if i < |s| && IsLower(s[i]) then LowerRunEnd(s, i + 1) else i
  }

  /** `re.sub('(.)([A-Z][a-z]+)', r'\1_\2', s)`: `.` is any character but a
      newline, and the greedy `[a-z]+` swallows the whole lower-case run. */
  function SubFirstCap(s: string): string
    decreases |s|
  {
    if |s| == 0 then []
    else if |s| >= 3 && s[0] != '\n' && IsUpper(s[1]) && IsLower(s[2]) then
      var j := LowerRunEnd(s, 2);
      [s[0], '_'] + s[1..j] + SubFirstCap(s[j..])
    else
      [s[0]] + SubFirstCap(s[1..])
  }

  /** `re.sub('([a-z0-9])([A-Z])', r'\1_\2', s)`. */
  function SubAllCap(s: string): string
    decreases |s|
  {
    if |s| == 0 then []
    else if |s| >= 2 && (IsLower(s[0]) || IsDigit(s[0])) && IsUpper(s[1]) then
      [s[0], '_', s[1]] + SubAllCap(s[2..])
    else
      [s[0]] + SubAllCap(s[1..])
  }

  /** `camel_case_to_snake_case`: the result has no upper-case letter. */
  function CamelToSnake(s: string): (r: string)
    ensures NoUpper(r)
  {
    Lower(SubAllCap(SubFirstCap(s)))
  }

  lemma {:induction false} SubFirstCapInserts(s: string)
    ensures Without(SubFirstCap(s), '_') == Without(s, '_')
    ensures forall c :: c in SubFirstCap(s) ==> c in s || c == '_'
    decreases |s|
  {
    if |s| == 0 {
    } else if |s| >= 3 && s[0] != '\n' && IsUpper(s[1]) && IsLower(s[2]) {
      var j := LowerRunEnd(s, 2);
      SubFirstCapInserts(s[j..]);
      WithoutAppend([s[0], '_'] + s[1..j], SubFirstCap(s[j..]), '_');
      WithoutAppend([s[0], '_'], s[1..j], '_');
      WithoutAppend([s[0]], s[1..j], '_');
      assert s == [s[0]] + s[1..j] + s[j..];
      WithoutAppend([s[0]] + s[1..j], s[j..], '_');
      assert [s[0], '_'] == [s[0]] + ['_'];
      WithoutAppend([s[0]], ['_'], '_');
      forall c | c in SubFirstCap(s)
        ensures c in s || c == '_'
      {
        assert SubFirstCap(s) == [s[0], '_'] + s[1..j] + SubFirstCap(s[j..]);
        if c in SubFirstCap(s[j..]) {
          assert c in s[j..] || c == '_';
        }
      }
    } else {
      SubFirstCapInserts(s[1..]);
      WithoutAppend([s[0]], SubFirstCap(s[1..]), '_');
      assert s == [s[0]] + s[1..];
      WithoutAppend([s[0]], s[1..], '_');
      forall c | c in SubFirstCap(s)
        ensures c in s || c == '_'
      {
        if c in SubFirstCap(s[1..]) {
          assert c in s[1..] || c == '_';
        }
      }
    }
  }

  lemma {:induction false} SubAllCapInserts(s: string)
    ensures Without(SubAllCap(s), '_') == Without(s, '_')
    ensures forall c :: c in SubAllCap(s) ==> c in s || c == '_'
    decreases |s|
  {
    if |s| == 0 {
    } else if |s| >= 2 && (IsLower(s[0]) || IsDigit(s[0])) && IsUpper(s[1]) {
      SubAllCapInserts(s[2..]);
      WithoutAppend([s[0], '_', s[1]], SubAllCap(s[2..]), '_');
      assert s == [s[0], s[1]] + s[2..];
      WithoutAppend([s[0], s[1]], s[2..], '_');
      forall c | c in SubAllCap(s)
        ensures c in s || c == '_'
      {
        if c in SubAllCap(s[2..]) {
          assert c in s[2..] || c == '_';
        }
      }
    } else {
      SubAllCapInserts(s[1..]);
      WithoutAppend([s[0]], SubAllCap(s[1..]), '_');
      assert s == [s[0]] + s[1..];
      WithoutAppend([s[0]], s[1..], '_');
      forall c | c in SubAllCap(s)
        ensures c in s || c == '_'
      {
        if c in SubAllCap(s[1..]) {
          assert c in s[1..] || c == '_';
        }
      }
    }
  }

  /** Both substitutions only insert underscores: deleting every '_' from the
      snake-case form gives the lower-cased input with its '_' deleted. */
  lemma CamelToSnakeOnlyInsertsUnderscores(s: string)
    ensures Without(CamelToSnake(s), '_') == Lower(Without(s, '_'))
  {
    SubFirstCapInserts(s);
    SubAllCapInserts(SubFirstCap(s));
    WithoutLower(SubAllCap(SubFirstCap(s)));
  }

  /** The conversion never introduces a space, so a space-free identifier
      keeps its snake-case form space-free. */
  lemma CamelToSnakeNoSpace(s: string)
    requires ' ' !in s
    ensures ' ' !in CamelToSnake(s)
  {
    SubFirstCapInserts(s);
    SubAllCapInserts(SubFirstCap(s));
    var t := SubAllCap(SubFirstCap(s));
    assert forall i :: 0 <= i < |t| ==> t[i] != ' ' by {
      forall i | 0 <= i < |t| ensures t[i] != ' ' {
        assert t[i] in t;
      }
    }
  }

  lemma {:induction false} SubFirstCapNoUpper(s: string)
    requires NoUpper(s)
    ensures SubFirstCap(s) == s
    decreases |s|
  {
    if |s| > 0 {
      SubFirstCapNoUpper(s[1..]);
    }
  }

  lemma {:induction false} SubAllCapNoUpper(s: string)
    requires NoUpper(s)
    ensures SubAllCap(s) == s
    decreases |s|
  {
    if |s| > 0 {
      SubAllCapNoUpper(s[1..]);
    }
  }

  /** Both patterns need an upper-case letter, so an input without one is
      returned unchanged. */
  lemma CamelToSnakeNoUpperUnchanged(s: string)
    requires NoUpper(s)
    ensures CamelToSnake(s) == s
  {
    SubFirstCapNoUpper(s);
    SubAllCapNoUpper(s);
    LowerNoUpper(s);
  }

  // ---------------------------------------------------------------------
  // str.split with a one-character separator

  /** `s.split(sep)`: always at least one part; empty parts are kept. */
  function SplitOn(s: string, sep: char): (parts: seq<string>)
    ensures |parts| >= 1
  {
    if |s| == 0 then [""]
    else
      var rest := SplitOn(s[1..], sep);
      if s[0] == sep then [""] + rest
      else [[s[0]] + rest[0]] + rest[1..]
  }

  /** `sep.join(parts)`. */
  function JoinWith(parts: seq<string>, sep: char): string
  {
    if |parts| == 0 then ""
    else if |parts| == 1 then parts[0]
    else parts[0] + [sep] + JoinWith(parts[1..], sep)
  }

  function Concat(parts: seq<string>): string
  {
    if |parts| == 0 then "" else parts[0] + Concat(parts[1..])
  }

  /** Splitting and joining with the same separator gives the string back,
      no part holds the separator, and there is one part more than there are
      separators. */
  lemma {:induction false} SplitOnJoin(s: string, sep: char)
    ensures JoinWith(SplitOn(s, sep), sep) == s
    ensures forall i :: 0 <= i < |SplitOn(s, sep)| ==> sep !in SplitOn(s, sep)[i]
    ensures |SplitOn(s, sep)| == Count(s, sep) + 1
  {
    if |s| > 0 {
      SplitOnJoin(s[1..], sep);
      var rest := SplitOn(s[1..], sep);
      if s[0] == sep {
        assert SplitOn(s, sep)[1..] == rest;
      } else {
        var parts := SplitOn(s, sep);
        assert parts[1..] == rest[1..];
        forall i | 0 <= i < |parts|
          ensures sep !in parts[i]
        {
          if i == 0 {
            assert parts[0] == [s[0]] + rest[0];
          } else {
            assert parts[i] == rest[i];
          }
        }
        if |rest| == 1 {
          assert JoinWith(parts, sep) == [s[0]] + rest[0];
        } else {
          assert JoinWith(rest, sep) == rest[0] + [sep] + JoinWith(rest[1..], sep);
        }
        assert s == [s[0]] + s[1..];
      }
    }
  }

  /** Splitting by a separator and concatenating the parts deletes the
      separator. */
  lemma {:induction false} SplitOnConcat(s: string, sep: char)
    ensures Concat(SplitOn(s, sep)) == Without(s, sep)
  {
    if |s| > 0 {
      SplitOnConcat(s[1..], sep);
      var rest := SplitOn(s[1..], sep);
      if s[0] == sep {
        assert SplitOn(s, sep)[1..] == rest;
      } else {
        var parts := SplitOn(s, sep);
        assert parts[1..] == rest[1..];
        assert Concat(rest) == rest[0] + Concat(rest[1..]);
      }
    }
  }

  /** `a, b = s.split(sep)`: `None` when the split does not give exactly two
      parts (Python raises ValueError). */
  function SplitPair(s: string, sep: char): (r: Option<(string, string)>)
    ensures r.Some? <==> Count(s, sep) == 1
    ensures r.Some? ==> r.value.0 + [sep] + r.value.1 == s
    ensures r.Some? ==> sep !in r.value.0 && sep !in r.value.1
  {
    SplitOnJoin(s, sep);
    var parts := SplitOn(s, sep);
    if |parts| == 2 then
      assert JoinWith(parts[1..], sep) == parts[1];
      Some((parts[0], parts[1]))
    else None
  }

  /** Splitting a joined pair recovers its halves. */
  lemma {:induction false} SplitOnSingle(a: string, sep: char)
    requires sep !in a
    ensures SplitOn(a, sep) == [a]
  {
    if |a| > 0 {
      SplitOnSingle(a[1..], sep);
      assert [a[0]] + a[1..] == a;
    }
  }

  lemma {:induction false} SplitOnSep(a: string, b: string, sep: char)
    requires sep !in a
    ensures SplitOn(a + [sep] + b, sep) == [a] + SplitOn(b, sep)
  {
    if |a| == 0 {
      assert a + [sep] + b == [sep] + b;
      assert ([sep] + b)[1..] == b;
    } else {
      assert (a + [sep] + b)[1..] == a[1..] + [sep] + b;
      SplitOnSep(a[1..], b, sep);
      assert [a[0]] + a[1..] == a;
    }
  }

  lemma SplitPairJoin(a: string, b: string, sep: char)
    requires sep !in a && sep !in b
    ensures SplitPair(a + [sep] + b, sep) == Some((a, b))
  {
    SplitOnSep(a, b, sep);
    SplitOnSingle(b, sep);
  }

  /** The format check of `import_cls`: the string must split on '/' into
      exactly a module name and a class name. */
  function ImportClsFormat(moduleCls: string): (r: Result<(string, string)>)
    ensures r.Ok? <==> Count(moduleCls, '/') == 1
    ensures r.Ok? ==> r.value.0 + "/" + r.value.1 == moduleCls
    ensures r.Err? ==> r.error == ImportClsError("Invalid format.")
  {
    match SplitPair(moduleCls, '/')
    case Some(p) => Ok(p)
    case None => Err(ImportClsError("Invalid format."))
  }

  // ---------------------------------------------------------------------
  // snake_case_to_camel_case

  /** `str.title` from a position whose predecessor is (or is not) cased:
      a letter is upper-cased after an uncased character and lower-cased
      after a cased one. */
  function TitleFrom(w: string, prevCased: bool): (r: string)
    ensures |r| == |w|
    ensures forall i :: 0 <= i < |w| ==> ToLower(r[i]) == ToLower(w[i])
    ensures forall i :: 0 <= i < |w| ==> (r[i] == '_' <==> w[i] == '_')
  {
    if |w| == 0 then []
    else
      var c := w[0];
      var c' := if !IsCased(c) then c else if prevCased then ToLower(c) else ToUpper(c);
      [c'] + TitleFrom(w[1..], IsCased(c))
  }

  function Title(w: string): string
  {
    TitleFrom(w, false)
  }

  function TitleAll(ws: seq<string>): (r: seq<string>)
    ensures |r| == |ws|
    ensures forall i :: 0 <= i < |ws| ==> r[i] == Title(ws[i])
  {
    if |ws| == 0 then [] else [Title(ws[0])] + TitleAll(ws[1..])
  }

  /** `snake_case_to_camel_case`: the first segment lower-cased, the others
      title-cased, joined without separator. */
  function SnakeToCamel(s: string): string
  {
    var parts := SplitOn(s, '_');
    Lower(parts[0]) + Concat(TitleAll(parts[1..]))
  }

  lemma {:induction false} LowerEqualUpToCase(a: string, b: string)
    requires |a| == |b|
    requires forall i :: 0 <= i < |a| ==> ToLower(a[i]) == ToLower(b[i])
    ensures Lower(a) == Lower(b)
  {
  }

  lemma {:induction false} ConcatTitleLower(ws: seq<string>)
    ensures Lower(Concat(TitleAll(ws))) == Lower(Concat(ws))
    ensures |Concat(TitleAll(ws))| == |Concat(ws)|
    ensures (forall i :: 0 <= i < |ws| ==> '_' !in ws[i]) ==> '_' !in Concat(TitleAll(ws))
  {
    if |ws| > 0 {
      ConcatTitleLower(ws[1..]);
      assert TitleAll(ws)[1..] == TitleAll(ws[1..]);
      var t := Title(ws[0]);
      LowerAppend(t, Concat(TitleAll(ws[1..])));
      LowerAppend(ws[0], Concat(ws[1..]));
      LowerEqualUpToCase(t, ws[0]);
      if forall i :: 0 <= i < |ws| ==> '_' !in ws[i] {
        assert forall i :: 0 <= i < |ws[1..]| ==> '_' !in ws[1..][i] by {
          forall i | 0 <= i < |ws[1..]| ensures '_' !in ws[1..][i] {
            assert ws[1..][i] == ws[i + 1];
          }
        }
        assert '_' !in ws[0];
        assert forall k :: 0 <= k < |t| ==> t[k] != '_';
      }
    }
  }

  /** The camel-case form holds no underscore, and ignoring case it is the
      input with its underscores deleted. */
  lemma SnakeToCamelSpec(s: string)
    ensures '_' !in SnakeToCamel(s)
    ensures Lower(SnakeToCamel(s)) == Lower(Without(s, '_'))
    ensures |SnakeToCamel(s)| == |s| - Count(s, '_')
  {
    var parts := SplitOn(s, '_');
    SplitOnJoin(s, '_');
    SplitOnConcat(s, '_');
    ConcatTitleLower(parts[1..]);
    assert forall i :: 0 <= i < |parts[1..]| ==> '_' !in parts[1..][i] by {
      forall i | 0 <= i < |parts[1..]| ensures '_' !in parts[1..][i] {
        assert parts[1..][i] == parts[i + 1];
      }
    }
    var head := Lower(parts[0]);
    assert forall k :: 0 <= k < |head| ==> head[k] != '_';
    LowerAppend(head, Concat(TitleAll(parts[1..])));
    LowerAppend(parts[0], Concat(parts[1..]));
    LowerEqualUpToCase(head, parts[0]);
    assert Concat(parts) == parts[0] + Concat(parts[1..]);
    WithoutLength(s, '_');
  }

  lemma {:induction false} WithoutLength(s: string, c: char)
    ensures |Without(s, c)| == |s| - Count(s, c)
  {
    if |s| > 0 {
      WithoutLength(s[1..], c);
    }
  }

  /** An input without underscores maps to its lower-case form. */
  lemma SnakeToCamelNoUnderscore(s: string)
    requires '_' !in s
    ensures SnakeToCamel(s) == Lower(s)
  {
    SplitOnSingle(s, '_');
  }

  /** In general the segment before the first underscore is lower-cased:
      every underscore-free prefix of the input reappears lower-cased as the
      same-length prefix of the output. */
  lemma SnakeToCamelFirstSegment(s: string, k: nat)
    requires k <= |s| && '_' !in s[..k]
    ensures k <= |SnakeToCamel(s)|
    ensures SnakeToCamel(s)[..k] == Lower(s[..k])
  {
    var parts := SplitOn(s, '_');
    SplitOnJoin(s, '_');
    FirstPartPrefix(s, k);
    LowerAppend(s[..k], parts[0][k..]);
    assert parts[0] == s[..k] + parts[0][k..];
  }

  lemma {:induction false} FirstPartPrefix(s: string, k: nat)
    requires k <= |s| && '_' !in s[..k]
    ensures k <= |SplitOn(s, '_')[0]|
    ensures SplitOn(s, '_')[0][..k] == s[..k]
  {
    if k > 0 {
      assert s[1..][..k - 1] == s[1..k];
      assert s[0] == s[..k][0];
      FirstPartPrefix(s[1..], k - 1);
      assert s[..k] == [s[0]] + s[1..][..k - 1];
    }
  }
}
