// A category set: the mapping of each clinical case to a duration
// distribution, parsed from a "case=distribution, ..." string.

module CategorySets {
  import opened TreeCore
  import opened Outbreaks

  /** Java's regular-expression class \s: space, tab, newline, vertical tab,
    * form feed and carriage return. */
  predicate IsWhitespace(c: char)
  {
    c == ' ' || c == '\t' || c == '\n' || c == '\U{000B}' || c == '\U{000C}' || c == '\r'
  }

  /** s without its leading run of whitespace. */
  function DropWhitespace(s: string): (t: string)
    ensures |t| <= |s| && t == s[|s| - |t|..]
    ensures t == [] || !IsWhitespace(t[0])
    ensures forall i :: 0 <= i < |s| - |t| ==> IsWhitespace(s[i])
  {
    if s != [] && IsWhitespace(s[0]) then DropWhitespace(s[1..]) else s
  }

  /** replaceAll("\\s+", " "): every maximal run of whitespace becomes a
    * single space. */
  function CollapseWhitespace(s: string): (t: string)
    ensures t == [] <==> s == []
    ensures t != [] ==> (t[0] == ' ' <==> IsWhitespace(s[0]))
    decreases |s|
  {
    if s == [] then []
    else if IsWhitespace(s[0]) then [' '] + CollapseWhitespace(DropWhitespace(s[1..]))
    else [s[0]] + CollapseWhitespace(s[1..])
  }

  /** Text whose only whitespace is single spaces. */
  predicate Collapsed(t: string)
  {
    (forall i :: 0 <= i < |t| ==> !IsWhitespace(t[i]) || t[i] == ' ') &&
    (forall i :: 0 <= i < |t| - 1 ==> !(t[i] == ' ' && t[i + 1] == ' '))
  }

  /** The characters of s that are not whitespace, in order. */
  function NonWhitespace(s: string): string
  {
    if s == [] then [] else (if IsWhitespace(s[0]) then [] else [s[0]]) + NonWhitespace(s[1..])
  }

  lemma {:induction false} CollapseIsCollapsed(s: string)
    ensures Collapsed(CollapseWhitespace(s))
    decreases |s|
  {
    if s != [] {
      if IsWhitespace(s[0]) {
        var rest := DropWhitespace(s[1..]);
        CollapseIsCollapsed(rest);
        var t := CollapseWhitespace(rest);
        assert CollapseWhitespace(s) == [' '] + t;
        assert t != [] ==> t[0] != ' ';
      } else {
        CollapseIsCollapsed(s[1..]);
      }
    }
  }

  lemma {:induction false} NonWhitespaceOfRun(s: string)
    ensures NonWhitespace(DropWhitespace(s)) == NonWhitespace(s)
    decreases |s|
  {
    if s != [] && IsWhitespace(s[0]) {
      NonWhitespaceOfRun(s[1..]);
    }
  }

  /** Collapsing keeps every non-whitespace character, in order. */
  lemma {:induction false} CollapseKeepsText(s: string)
    ensures NonWhitespace(CollapseWhitespace(s)) == NonWhitespace(s)
    decreases |s|
  {
    if s != [] {
      if IsWhitespace(s[0]) {
        var rest := DropWhitespace(s[1..]);
        CollapseKeepsText(rest);
        NonWhitespaceOfRun(s[1..]);
        assert CollapseWhitespace(s) == [' '] + CollapseWhitespace(rest);
        assert NonWhitespace([' '] + CollapseWhitespace(rest)) == NonWhitespace(CollapseWhitespace(rest));
      } else {
        CollapseKeepsText(s[1..]);
        assert CollapseWhitespace(s) == [s[0]] + CollapseWhitespace(s[1..]);
        assert ([s[0]] + CollapseWhitespace(s[1..]))[1..] == CollapseWhitespace(s[1..]);
      }
    }
  }

  /** Collapsed text is left as it is, so collapsing twice is collapsing once. */
  lemma {:induction false} CollapseFixes(t: string)
    requires Collapsed(t)
    ensures CollapseWhitespace(t) == t
    decreases |t|
  {
    if t != [] {
      assert Collapsed(t[1..]);
      CollapseFixes(t[1..]);
      if IsWhitespace(t[0]) {
        assert t[1..] == [] || !IsWhitespace(t[1]);
        assert DropWhitespace(t[1..]) == t[1..];
      }
    }
  }

  /**
   * normalize: drop one leading space and then one trailing space, when
   * present; the empty string has no first character to read.
   */
  function Normalize(str: string): (r: Result<string>)
    ensures r.Ok? <==> str != []
    ensures r.Ok? && str[0] == ' ' ==> r.value <= str[1..] && |r.value| + 2 >= |str|
    ensures r.Ok? && str[0] != ' ' ==> r.value <= str && |r.value| + 1 >= |str|
    ensures r.Ok? && |r.value| + (if str[0] == ' ' then 1 else 0) < |str| ==> str[|str| - 1] == ' '
  {
    if str == [] then Err("empty string")
    else
      var a := if str[0] == ' ' then str[1..] else str;
      if |a| > 0 && a[|a| - 1] == ' ' then Ok(a[..|a| - 1]) else Ok(a)
  }

  /** On collapsed text, normalize leaves no space at either end. */
  lemma NormalizeTrims(str: string)
    requires str != [] && Collapsed(str)
    ensures var v := Normalize(str).value; v == [] || (v[0] != ' ' && v[|v| - 1] != ' ')
  {
    var v := Normalize(str).value;
    if v != [] && str[0] == ' ' {
      assert v[0] == str[1];
    }
    if v != [] {
      var a := if str[0] == ' ' then str[1..] else str;
      if |a| > 0 && a[|a| - 1] == ' ' {
        assert v == a[..|a| - 1];
        assert v[|v| - 1] == str[|str| - 2] && str[|str| - 1] == ' ';
      }
    }
  }

  /** A trimmed word with at most one space on either side normalizes to
    * the word itself. */
  lemma NormalizeKeeps(w: string)
    requires w != [] && w[0] != ' ' && w[|w| - 1] != ' '
    ensures Normalize(w) == Ok(w) && Normalize(" " + w) == Ok(w)
    ensures Normalize(w + " ") == Ok(w) && Normalize(" " + w + " ") == Ok(w)
  {
    assert (" " + w)[1..] == w;
    assert (" " + w + " ")[1..] == w + " ";
    assert (w + " ")[..|w|] == w;
  }

  /** The pieces of s between occurrences of sep, empty pieces included. */
  function SplitAll(s: string, sep: char): (parts: seq<string>)
    ensures |parts| >= 1 && forall i :: 0 <= i < |parts| ==> sep !in parts[i]
  {
    if s == [] then [[]]
    else
      var init := SplitAll(s[..|s| - 1], sep);
      if s[|s| - 1] == sep then init + [[]]
      else init[..|init| - 1] + [init[|init| - 1] + [s[|s| - 1]]]
  }

  /** The pieces joined back together with sep between them. */
  function Join(parts: seq<string>, sep: char): string
    requires |parts| >= 1
  {
    if |parts| == 1 then parts[0] else Join(parts[..|parts| - 1], sep) + [sep] + parts[|parts| - 1]
  }

  /** Splitting and joining again gives back the string. */
  lemma {:induction false} SplitJoin(s: string, sep: char)
    ensures Join(SplitAll(s, sep), sep) == s
  {
    if s != [] {
      var s0, c := s[..|s| - 1], s[|s| - 1];
      SplitJoin(s0, sep);
      assert s == s0 + [c];
      if c == sep {
        SplitJoinSep(s0, sep);
      } else {
        SplitJoinChar(s0, c, sep);
      }
    }
  }

  /** SplitJoin's step for a separator at the end. */
  lemma SplitJoinSep(s0: string, sep: char)
    requires Join(SplitAll(s0, sep), sep) == s0
    ensures Join(SplitAll(s0 + [sep], sep), sep) == s0 + [sep]
  {
    var s := s0 + [sep];
    assert s[..|s| - 1] == s0;
    var parts := SplitAll(s, sep);
    assert parts[..|parts| - 1] == SplitAll(s0, sep);
  }

  /** SplitJoin's step for another character at the end. */
  lemma SplitJoinChar(s0: string, c: char, sep: char)
    requires c != sep && Join(SplitAll(s0, sep), sep) == s0
    ensures Join(SplitAll(s0 + [c], sep), sep) == s0 + [c]
  {
    var s := s0 + [c];
    assert s[..|s| - 1] == s0;
    var init := SplitAll(s0, sep);
    var last := init[|init| - 1];
    var parts := SplitAll(s, sep);
    assert parts == init[..|init| - 1] + [last + [c]];
    if |init| > 1 {
      assert parts[..|parts| - 1] == init[..|init| - 1];
      assert Join(init, sep) == Join(init[..|init| - 1], sep) + [sep] + last;
    }
  }

  /** A piece without the separator is one piece. */
  lemma {:induction false} SplitNone(b: string, sep: char)
    requires sep !in b
    ensures SplitAll(b, sep) == [b]
  {
    if b != [] {
      SplitNone(b[..|b| - 1], sep);
      assert b[..|b| - 1] + [b[|b| - 1]] == b;
    }
  }

  /** Splitting a + sep + b, with no separator in b, splits a and adds b. */
  lemma {:induction false} SplitAppend(a: string, b: string, sep: char)
    requires sep !in b
    ensures SplitAll(a + [sep] + b, sep) == SplitAll(a, sep) + [b]
  {
    if b == [] {
      assert a + [sep] + b == a + [sep];
      assert (a + [sep])[..|a|] == a;
    } else {
      var b0 := b[..|b| - 1];
      SplitAppend(a, b0, sep);
      assert (a + [sep] + b)[..|a + [sep] + b| - 1] == a + [sep] + b0;
      assert b0 + [b[|b| - 1]] == b;
    }
  }

  /** Joining pieces that hold no separator and splitting again gives back
    * the pieces. */
  lemma {:induction false} JoinSplit(parts: seq<string>, sep: char)
    requires |parts| >= 1 && forall i :: 0 <= i < |parts| ==> sep !in parts[i]
    ensures SplitAll(Join(parts, sep), sep) == parts
  {
    if |parts| == 1 {
      SplitNone(parts[0], sep);
    } else {
      var init := parts[..|parts| - 1];
      JoinSplit(init, sep);
      SplitAppend(Join(init, sep), parts[|parts| - 1], sep);
    }
  }

  /** The pieces without their trailing empty ones. */
  function DropTrailingEmpty(ps: seq<string>): (qs: seq<string>)
    ensures qs <= ps && (qs == [] || qs[|qs| - 1] != [])
    ensures forall i :: |qs| <= i < |ps| ==> ps[i] == []
  {
    if ps != [] && ps[|ps| - 1] == [] then DropTrailingEmpty(ps[..|ps| - 1]) else ps
  }

  /** String.split with a one-character separator: the pieces between
    * separators with trailing empty pieces dropped; a string without the
    * separator is its own single piece. */
  function JavaSplit(s: string, sep: char): (parts: seq<string>)
    ensures forall i :: 0 <= i < |parts| ==> sep !in parts[i]
  {
    if sep !in s then [s] else DropTrailingEmpty(SplitAll(s, sep))
  }

  /** Pieces without the separator whose last piece is not empty come back
    * from splitting their join. */
  lemma JavaSplitJoin(parts: seq<string>, sep: char)
    requires |parts| >= 1 && forall i :: 0 <= i < |parts| ==> sep !in parts[i]
    requires parts[|parts| - 1] != []
    ensures JavaSplit(Join(parts, sep), sep) == parts
  {
    if |parts| > 1 {
      var a := Join(parts[..|parts| - 1], sep);
      assert Join(parts, sep)[|a|] == sep;
      JoinSplit(parts, sep);
    }
  }

  /** A duration distribution: its ID, and the length of a fixed-value
    * distribution created for an unknown ID (None for a supplied one). */
  datatype Distribution = Distribution(id: string, fixedLength: Option<real>)

  /** The state of the parse: the distribution list, in which a
    * distribution is identified by its position, and the map from case ID
    * to position. */
  datatype Parsed = Parsed(dists: seq<Distribution>, index: map<string, nat>)

  predicate IndexInRange(p: Parsed)
  {
    forall c :: c in p.index ==> p.index[c] < |p.dists|
  }

  /** A word the value string can carry: not empty, and free of whitespace,
    * commas and equals signs. */
  predicate Plain(w: string)
  {
    w != [] && forall i :: 0 <= i < |w| ==> !IsWhitespace(w[i]) && w[i] != ',' && w[i] != '='
  }

  /**
   * One entry of the value string, "case=distribution": its whitespace
   * runs collapse, it must split on '=' into exactly two parts, and both
   * are normalized.
   */
  function ParseEntry(entry: string): (r: Result<(string, string)>)
    ensures r.Ok? ==> '=' !in r.value.0 && '=' !in r.value.1
  {
    ParsePieces(JavaSplit(CollapseWhitespace(entry), '='))
  }

  /** The two sides of an entry, normalized; any other number of sides is
    * malformed. */
  function ParsePieces(strs: seq<string>): (r: Result<(string, string)>)
    requires forall i :: 0 <= i < |strs| ==> '=' !in strs[i]
    ensures r.Ok? ==> '=' !in r.value.0 && '=' !in r.value.1
  {
    if |strs| != 2 then Err("could not parse category")
    else
      var caseId := Normalize(strs[0]);
      var distId := Normalize(strs[1]);
      if caseId.Err? then Err(caseId.error)
      else if distId.Err? then Err(distId.error)
      else Ok((caseId.value, distId.value))
  }

  /** Text without whitespace is already collapsed. */
  lemma CollapseNoWhitespace(t: string)
    requires forall i :: 0 <= i < |t| ==> !IsWhitespace(t[i])
    ensures CollapseWhitespace(t) == t
  {
    CollapseFixes(t);
  }

  /** A newline before text without whitespace collapses to a space. */
  lemma CollapseAfterNewline(t: string)
    requires t != [] && forall i :: 0 <= i < |t| ==> !IsWhitespace(t[i])
    ensures CollapseWhitespace("\n" + t) == " " + t
  {
    assert ("\n" + t)[1..] == t;
    assert DropWhitespace(t) == t;
    CollapseNoWhitespace(t);
  }

  /** "w=d" for plain words holds no whitespace. */
  lemma PairHasNoWhitespace(w: string, d: string)
    requires Plain(w) && Plain(d)
    ensures var t := w + "=" + d; t != [] && forall i :: 0 <= i < |t| ==> !IsWhitespace(t[i])
  {
    var t := w + "=" + d;
    forall i | 0 <= i < |t| ensures !IsWhitespace(t[i]) {
      if i < |w| {
        assert t[i] == w[i];
      } else if i > |w| {
        assert t[i] == d[i - |w| - 1];
      }
    }
  }

  /** Splitting " w=d" or "w=d" on '=' for plain words gives its two sides. */
  lemma SplitPair(head: string, d: string)
    requires head != [] && '=' !in head && Plain(d)
    ensures JavaSplit(head + "=" + d, '=') == [head, d]
  {
    assert Join([head, d], '=') == head + "=" + d;
    JavaSplitJoin([head, d], '=');
  }

  /** A pair of plain words, alone or after a newline, collapses to the
    * pair after nothing or after one space. */
  lemma CollapsePair(lead: string, w: string, d: string)
    requires lead == "" || lead == "\n"
    requires Plain(w) && Plain(d)
    ensures CollapseWhitespace(lead + w + "=" + d) == (if lead == "" then w else " " + w) + "=" + d
  {
    var t := w + "=" + d;
    assert t != [] && forall i :: 0 <= i < |t| ==> !IsWhitespace(t[i]) by {
      PairHasNoWhitespace(w, d);
    }
    if lead == "" {
      assert lead + w + "=" + d == t;
      CollapseNoWhitespace(t);
    } else {
      assert lead + w + "=" + d == "\n" + t;
      CollapseAfterNewline(t);
    }
  }

  /** A pair of plain words, alone or after a newline, parses to the words. */
  lemma ParseEntryOfPair(lead: string, w: string, d: string)
    requires lead == "" || lead == "\n"
    requires Plain(w) && Plain(d)
    ensures ParseEntry(lead + w + "=" + d) == Ok((w, d))
  {
    var head := if lead == "" then w else " " + w;
    assert CollapseWhitespace(lead + w + "=" + d) == head + "=" + d by {
      CollapsePair(lead, w, d);
    }
    assert JavaSplit(head + "=" + d, '=') == [head, d] by {
      SplitPair(head, d);
    }
    assert Normalize(head) == Ok(w) && Normalize(d) == Ok(d) by {
      NormalizeKeeps(w);
      NormalizeKeeps(d);
    }
  }

  /** The position of the last distribution carrying the ID, or -1. */
  function LastWithId(ds: seq<Distribution>, id: string): (j: int)
    ensures -1 <= j < |ds|
    ensures j >= 0 ==> ds[j].id == id && forall k :: j < k < |ds| ==> ds[k].id != id
    ensures j == -1 ==> forall k :: 0 <= k < |ds| ==> ds[k].id != id
  {
    if ds == [] then -1
    else if ds[|ds| - 1].id == id then |ds| - 1
    else LastWithId(ds[..|ds| - 1], id)
  }

  /**
   * One parsed entry: the case goes to the last distribution carrying the
   * ID; a case still unmapped after that gets a new fixed-value
   * distribution of length 1.0, named by the normalized ID and appended to
   * the list. No other case's distribution changes.
   */
  function AddEntry(p: Parsed, caseId: string, distId: string): (r: Result<Parsed>)
    requires IndexInRange(p)
    ensures r.Ok? ==> IndexInRange(r.value) && p.dists <= r.value.dists
    ensures r.Ok? ==> r.value.index.Keys == p.index.Keys + {caseId}
    ensures r.Ok? ==> forall c :: c in p.index && c != caseId ==> r.value.index[c] == p.index[c]
    ensures r.Ok? ==> forall i :: |p.dists| <= i < |r.value.dists| ==> r.value.dists[i].fixedLength == Some(1.0)
    ensures LastWithId(p.dists, distId) >= 0 ==>
      r.Ok? && r.value.dists == p.dists && r.value.index[caseId] == LastWithId(p.dists, distId)
    ensures LastWithId(p.dists, distId) == -1 && caseId in p.index ==> r == Ok(p)
    ensures LastWithId(p.dists, distId) == -1 && caseId !in p.index ==>
      (r.Ok? <==> distId != []) &&
      (r.Ok? ==> r.value.dists == p.dists + [Distribution(Normalize(distId).value, Some(1.0))] &&
                 r.value.index[caseId] == |p.dists|)
  {
    var j := LastWithId(p.dists, distId);
    var index := if j >= 0 then p.index[caseId := j] else p.index;
    if caseId in index then Ok(Parsed(p.dists, index))
    else
      var id := Normalize(distId);
      if id.Err? then Err(id.error)
      else Ok(Parsed(p.dists + [Distribution(id.value, Some(1.0))], index[caseId := |p.dists|]))
  }

  /** A distribution created for an unknown ID is found by the next entry
    * naming that ID: its case goes to it and the list does not grow. */
  lemma NewDistributionReused(p: Parsed, c1: string, c2: string, d: string)
    requires IndexInRange(p) && LastWithId(p.dists, d) == -1 && c1 !in p.index
    requires Normalize(d) == Ok(d)
    ensures var q := AddEntry(p, c1, d);
      q.Ok? && q.value.dists == p.dists + [Distribution(d, Some(1.0))] &&
      AddEntry(q.value, c2, d) == Ok(Parsed(q.value.dists, q.value.index[c2 := |p.dists|]))
  {
    var q := AddEntry(p, c1, d).value;
    assert LastWithId(q.dists, d) == |p.dists|;
  }

  /** Each entry of the value string parsed on its own. */
  function ParseAll(entries: seq<string>): (rs: seq<Result<(string, string)>>)
    ensures |rs| == |entries| && forall i :: 0 <= i < |entries| ==> rs[i] == ParseEntry(entries[i])
  {
    seq(|entries|, i requires 0 <= i < |entries| => ParseEntry(entries[i]))
  }

  /** The parsed entries applied in order from the state p: the first entry
    * that failed to parse, or whose distribution ID is empty, ends the
    * parse with its error. */
  function ApplyEntries(rs: seq<Result<(string, string)>>, p: Parsed): (r: Result<Parsed>)
    requires IndexInRange(p)
    ensures r.Ok? ==> IndexInRange(r.value) && p.dists <= r.value.dists && p.index.Keys <= r.value.index.Keys
    ensures r.Ok? ==> forall i :: |p.dists| <= i < |r.value.dists| ==> r.value.dists[i].fixedLength == Some(1.0)
    decreases |rs|
  {
    if rs == [] then Ok(p)
    else if rs[0].Err? then Err(rs[0].error)
    else
      var q := AddEntry(p, rs[0].value.0, rs[0].value.1);
      if q.Err? then q else ApplyEntries(rs[1..], q.value)
  }

  /** The entries of the value string written when none is given: every
    * case mapped to the distribution d, each entry after the first starting
    * on a new line. */
  function DefaultEntries(ids: seq<string>, d: string): (es: seq<string>)
    ensures |es| == |ids|
  {
    seq(|ids|, i requires 0 <= i < |ids| => (if i == 0 then "" else "\n") + ids[i] + "=" + d)
  }

  /**
   * What initAndValidate makes of the value string, the outbreak's case
   * IDs and the supplied distributions. Without cases nothing is parsed.
   * Without a value string, one is written mapping every case to the first
   * distribution (there must be one). The comma-separated entries are then
   * parsed in order, and every case must end up mapped.
   */
  function Categorise(value: Option<string>, caseIds: seq<string>, supplied: seq<Distribution>): (r: Result<Parsed>)
    ensures r.Ok? ==> IndexInRange(r.value) && supplied <= r.value.dists
    ensures r.Ok? ==> forall i :: 0 <= i < |caseIds| ==> caseIds[i] in r.value.index
    ensures r.Ok? ==> forall i :: |supplied| <= i < |r.value.dists| ==> r.value.dists[i].fixedLength == Some(1.0)
    ensures caseIds == [] ==> r == Ok(Parsed(supplied, map[]))
  {
    if caseIds == [] then Ok(Parsed(supplied, map[]))
    else if value.None? && supplied == [] then Err("no distribution to default to")
    else
      var v := if value.Some? then value.value else Join(DefaultEntries(caseIds, supplied[0].id), ',');
      var p := ApplyEntries(ParseAll(JavaSplit(v, ',')), Parsed(supplied, map[]));
      if p.Err? then p
      else if exists i :: 0 <= i < |caseIds| && caseIds[i] !in p.value.index then Err("no category specified")
      else p
  }

  /** Every case of p goes to a distribution carrying d. */
  predicate AllTo(p: Parsed, d: string)
    requires IndexInRange(p)
  {
    forall c :: c in p.index ==> p.dists[p.index[c]].id == d
  }

  /** Every key is mapped by m. */
  predicate Covered(keys: seq<string>, m: map<string, nat>)
    decreases |keys|
  {
    keys == [] || (keys[0] in m && Covered(keys[1..], m))
  }

  lemma {:induction false} CoveredMeans(keys: seq<string>, m: map<string, nat>)
    ensures Covered(keys, m) <==> forall i :: 0 <= i < |keys| ==> keys[i] in m
    decreases |keys|
  {
    if keys != [] {
      CoveredMeans(keys[1..], m);
      assert forall i :: 1 <= i < |keys| ==> keys[i] == keys[1..][i - 1];
    }
  }

  /** Entries that each name a known distribution d map their cases to
    * distributions carrying d and add no distribution. */
  lemma {:induction false} ApplyKnownPairs(rs: seq<Result<(string, string)>>, keys: seq<string>, d: string, p: Parsed)
    requires |rs| == |keys| && forall i :: 0 <= i < |rs| ==> rs[i] == Ok((keys[i], d))
    requires IndexInRange(p) && LastWithId(p.dists, d) >= 0 && AllTo(p, d)
    ensures var r := ApplyEntries(rs, p);
      r.Ok? && r.value.dists == p.dists && AllTo(r.value, d) && Covered(keys, r.value.index)
    decreases |rs|
  {
    if rs != [] {
      var q := AddEntry(p, keys[0], d).value;
      assert q.dists == p.dists && AllTo(q, d) && keys[0] in q.index;
      assert ApplyEntries(rs, p) == ApplyEntries(rs[1..], q) by {
        assert rs[0] == Ok((keys[0], d));
      }
      assert forall i :: 0 <= i < |rs| - 1 ==> rs[1..][i] == Ok((keys[1..][i], d));
      ApplyKnownPairs(rs[1..], keys[1..], d, q);
    }
  }

  /** No entry of the default value string holds a comma. */
  lemma DefaultEntriesHaveNoComma(ids: seq<string>, d: string)
    requires (forall i :: 0 <= i < |ids| ==> Plain(ids[i])) && Plain(d)
    ensures var es := DefaultEntries(ids, d); forall i :: 0 <= i < |es| ==> ',' !in es[i]
  {
    var es := DefaultEntries(ids, d);
    forall i | 0 <= i < |es| ensures ',' !in es[i] {
      var lead := if i == 0 then "" else "\n";
      assert es[i] == lead + ids[i] + "=" + d;
      forall j | 0 <= j < |es[i]| ensures es[i][j] != ',' {
        if j < |lead| {
        } else if j < |lead| + |ids[i]| {
          assert es[i][j] == ids[i][j - |lead|];
        } else if j > |lead| + |ids[i]| {
          assert es[i][j] == d[j - |lead| - |ids[i]| - 1];
        }
      }
    }
  }

  /** With no value string, every case is assigned the first distribution
    * (the last one carrying its ID), provided the IDs are plain words. */
  lemma DefaultAssignsFirst(ids: seq<string>, supplied: seq<Distribution>)
    requires ids != [] && supplied != []
    requires (forall i :: 0 <= i < |ids| ==> Plain(ids[i])) && Plain(supplied[0].id)
    ensures var r := Categorise(None, ids, supplied);
      r.Ok? && r.value.dists == supplied &&
      forall i :: 0 <= i < |ids| ==> supplied[r.value.index[ids[i]]].id == supplied[0].id
  {
    var d := supplied[0].id;
    var es := DefaultEntries(ids, d);
    assert JavaSplit(Join(es, ','), ',') == es by {
      DefaultEntriesHaveNoComma(ids, d);
      assert es[|es| - 1] != [];
      JavaSplitJoin(es, ',');
    }
    var rs := ParseAll(es);
    forall i | 0 <= i < |es| ensures rs[i] == Ok((ids[i], d)) {
      ParseEntryOfPair(if i == 0 then "" else "\n", ids[i], d);
    }
    ApplyKnownPairs(rs, ids, d, Parsed(supplied, map[]));
    var p := ApplyEntries(rs, Parsed(supplied, map[])).value;
    CoveredMeans(ids, p.index);
    assert Categorise(None, ids, supplied) == Ok(p);
  }

  /** The positions of the distributions some case refers to, in order:
    * what remains of the list after the clean-up. */
  function KeptPositions(p: Parsed, k: nat): (ks: seq<nat>)
    requires k <= |p.dists|
    ensures |ks| <= k && forall i :: i in ks <==> i < k && i in p.index.Values
    ensures forall a, b :: 0 <= a < b < |ks| ==> ks[a] < ks[b]
  {
    if k == 0 then []
    else
      var ks := KeptPositions(p, k - 1);
      assert forall a :: 0 <= a < |ks| ==> ks[a] in ks;
      ks + (if k - 1 in p.index.Values then [k - 1] else [])
  }

  /** The distributions at the given positions. */
  function Select(ds: seq<Distribution>, ks: seq<nat>): seq<Distribution>
    requires forall i :: 0 <= i < |ks| ==> ks[i] < |ds|
  {
    seq(|ks|, i requires 0 <= i < |ks| => ds[ks[i]])
  }

  /** Each case ID's distribution. */
  function Assigned(p: Parsed): map<string, Distribution>
    requires IndexInRange(p)
  {
    map c | c in p.index :: p.dists[p.index[c]]
  }

  /** What the clean-up leaves of the list: the distributions some case
    * refers to, in their order. */
  function CleanedUp(p: Parsed): (ds: seq<Distribution>)
    requires IndexInRange(p)
    ensures |ds| <= |p.dists|
  {
    var ks := KeptPositions(p, |p.dists|);
    assert forall i :: 0 <= i < |ks| ==> ks[i] in ks;
    assert |Select(p.dists, ks)| == |ks|;
    Select(p.dists, ks)
  }

  /** After the clean-up, the list holds every case's distribution and
    * nothing else. */
  lemma CleanUpKeepsExactlyAssigned(p: Parsed)
    requires IndexInRange(p)
    ensures forall c :: c in p.index ==> Assigned(p)[c] in CleanedUp(p)
    ensures forall i :: 0 <= i < |CleanedUp(p)| ==> CleanedUp(p)[i] in Assigned(p).Values
  {
    var ks := KeptPositions(p, |p.dists|);
    var ds := CleanedUp(p);
    forall c | c in p.index ensures Assigned(p)[c] in ds {
      assert p.index[c] in ks;
      var a :| 0 <= a < |ks| && ks[a] == p.index[c];
      assert ds[a] == Assigned(p)[c];
    }
    forall i | 0 <= i < |ds| ensures ds[i] in Assigned(p).Values {
      assert ks[i] in ks;
      var c :| c in p.index && p.index[c] == ks[i];
      assert Assigned(p)[c] == ds[i];
    }
  }

  /** A successful initialization maps every case and keeps exactly the
    * distributions the cases use. */
  lemma InitLeavesConsistentSet(value: Option<string>, caseIds: seq<string>, supplied: seq<Distribution>)
    requires caseIds != [] && Categorise(value, caseIds, supplied).Ok?
    ensures var p := Categorise(value, caseIds, supplied).value;
      (forall i :: 0 <= i < |caseIds| ==> caseIds[i] in Assigned(p) && Assigned(p)[caseIds[i]] in CleanedUp(p)) &&
      forall i :: 0 <= i < |CleanedUp(p)| ==> CleanedUp(p)[i] in Assigned(p).Values
  {
    CleanUpKeepsExactlyAssigned(Categorise(value, caseIds, supplied).value);
  }

  /** The position of the last distribution carrying the ID, scanning the
    * whole list. */
  method LastMatch(ds: seq<Distribution>, id: string) returns (j: int)
    ensures j == LastWithId(ds, id)
  {
    j := -1;
    for k := 0 to |ds|
      invariant j == LastWithId(ds[..k], id)
    {
      assert ds[..k + 1][..k] == ds[..k];
      if ds[k].id == id {
        j := k;
      }
    }
    assert ds[..|ds|] == ds;
  }

  /** The value string written when none is given. */
  method DefaultValue(ids: seq<string>, d: string) returns (v: string)
    requires ids != []
    ensures v == Join(DefaultEntries(ids, d), ',')
  {
    ghost var es := DefaultEntries(ids, d);
    v := [];
    for i := 0 to |ids|
      invariant i == 0 ==> v == []
      invariant i > 0 ==> v == Join(es[..i], ',')
    {
      if i > 0 {
        v := v + ",\n";
      }
      v := v + ids[i] + "=" + d;
      assert es[..i + 1][..i] == es[..i];
    }
    assert es[..|ids|] == es;
  }

  /** One parsed entry applied: the case goes to the last distribution
    * carrying the ID, and a case still unmapped gets a new one. */
  method AddParsed(dists: seq<Distribution>, m: map<string, nat>, caseId: string, distId: string)
    returns (r: Result<Parsed>)
    requires IndexInRange(Parsed(dists, m))
    ensures r == AddEntry(Parsed(dists, m), caseId, distId)
  {
    var index := m;
    var j := LastMatch(dists, distId);
    if j >= 0 {
      index := index[caseId := j];
    }
    if caseId in index {
      return Ok(Parsed(dists, index));
    }
    var n := Normalize(distId);
    if n.Err? {
      return Err(n.error);
    }
    return Ok(Parsed(dists + [Distribution(n.value, Some(1.0))], index[caseId := |dists|]));
  }

  /** The value string's entries parsed in order, each case going to the
    * last distribution carrying its ID or to a new one. */
  method ParseValue(v: string, supplied: seq<Distribution>) returns (r: Result<Parsed>)
    ensures r == ApplyEntries(ParseAll(JavaSplit(v, ',')), Parsed(supplied, map[]))
  {
    var entries := JavaSplit(v, ',');
    ghost var rs := ParseAll(entries);
    var state := Parsed(supplied, map[]);
    for i := 0 to |entries|
      invariant IndexInRange(state)
      invariant ApplyEntries(rs, Parsed(supplied, map[])) == ApplyEntries(rs[i..], state)
    {
      assert rs[i..][0] == rs[i] && rs[i..][1..] == rs[i + 1..];
      var e := ParseEntry(entries[i]);
      if e.Err? {
        return Err(e.error);
      }
      var q := AddParsed(state.dists, state.index, e.value.0, e.value.1);
      if q.Err? {
        return q;
      }
      state := q.value;
    }
    return Ok(state);
  }

  /**
   * What initialization computes from the value string, the case IDs and
   * the supplied list, without changing anything: the value string it
   * leaves (the default one when it had to be written) and the parse.
   */
  method Categorised(value: Option<string>, ids: seq<string>, supplied: seq<Distribution>)
    returns (written: Option<string>, r: Result<Parsed>)
    ensures r == Categorise(value, ids, supplied)
    ensures written == (if ids != [] && value.None? && supplied != []
                        then Some(Join(DefaultEntries(ids, supplied[0].id), ','))
                        else value)
  {
    written := value;
    if ids == [] {
      return written, Ok(Parsed(supplied, map[]));
    }
    var v: string;
    if value.None? {
      if supplied == [] {
        return written, Err("no distribution to default to");
      }
      v := DefaultValue(ids, supplied[0].id);
      written := Some(v);
    } else {
      v := value.value;
    }
    r := ParseValue(v, supplied);
    if r.Err? {
      return;
    }
    var ok := AllMapped(ids, r.value.index);
    if !ok {
      r := Err("no category specified");
    }
  }

  /** Whether every case ID has a distribution. */
  method AllMapped(ids: seq<string>, m: map<string, nat>) returns (ok: bool)
    ensures ok <==> forall i :: 0 <= i < |ids| ==> ids[i] in m
  {
    for i := 0 to |ids|
      invariant forall k :: 0 <= k < i ==> ids[k] in m
    {
      if ids[i] !in m {
        return false;
      }
    }
    return true;
  }

  /** The list without the distributions no case refers to. */
  method CleanUp(p: Parsed) returns (kept: seq<Distribution>)
    requires IndexInRange(p)
    ensures kept == CleanedUp(p)
  {
    var toRemove: set<nat> := {};
    for j := 0 to |p.dists|
      invariant toRemove == set k | 0 <= k < j && k !in p.index.Values
    {
      if j !in p.index.Values {
        toRemove := toRemove + {j};
      }
    }
    kept := [];
    ghost var ks: seq<nat> := [];
    for j := 0 to |p.dists|
      invariant forall i :: 0 <= i < |ks| ==> ks[i] < j
      invariant ks == KeptPositions(p, j) && kept == Select(p.dists, ks)
    {
      if j !in toRemove {
        kept := kept + [p.dists[j]];
        ks := ks + [j];
      }
    }
  }

  /** The mapping from case to duration distribution. */
  class CategorySet {
    var value: Option<string>
    var distributions: seq<Distribution>
    var byCase: map<string, Distribution>

    constructor(value: Option<string>, supplied: seq<Distribution>)
      ensures this.value == value && distributions == supplied && byCase == map[]
    {
      this.value := value;
      distributions := supplied;
      byCase := map[];
    }

    /**
     * Maps every case of the outbreak to a distribution, as Categorise
     * says, writing the default value string when none is given; on
     * success the list keeps only the distributions in use.
     */
    method InitAndValidate(cases: seq<ClinicalCase>) returns (r: Result<bool>)
      modifies this
      ensures var c := Categorise(old(value), IdsOf(cases), old(distributions));
        (r.Ok? <==> c.Ok?) &&
        (r.Ok? ==> byCase == Assigned(c.value) &&
                   distributions == (if cases == [] then old(distributions) else CleanedUp(c.value)))
      ensures value == (if cases != [] && old(value).None? && old(distributions) != []
                        then Some(Join(DefaultEntries(IdsOf(cases), old(distributions)[0].id), ','))
                        else old(value))
    {
      var ids := CollectNames(cases);
      var written, c := Categorised(value, ids, distributions);
      value := written;
      if c.Err? {
        return Err(c.error);
      }
      if ids != [] {
        distributions := CleanUp(c.value);
      }
      byCase := Assigned(c.value);
      return Ok(true);
    }

    /** The case's distribution, None for a case with none. */
    function GetDistribution(caseId: string): (r: Option<Distribution>)
      reads this
      ensures r.Some? <==> caseId in byCase
      ensures r.Some? ==> r.value == byCase[caseId]
    {
      if caseId in byCase then Some(byCase[caseId]) else None
    }
  }
}
