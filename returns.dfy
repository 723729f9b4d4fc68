/**
 * The RETURN-list utilities: removing repeated names, adding every pattern
 * variable that is missing, and the whitespace-insensitive query comparison.
 * They work on the text after `RETURN`; locating that text in the query is
 * not part of this model.
 */
module ReturnList {
  import opened Text
  import opened Symbols

  /** `[v.strip() for v in text.split(',')]` */
  function ReturnItems(text: string): (items: seq<string>)
    ensures |items| >= 1
  {
    var pieces := Split(text, ',');
    seq(|pieces|, i requires 0 <= i < |pieces| => Strip(pieces[i]))
  }

  /** The items are stripped and hold no comma. */
  lemma {:induction false} ReturnItemsShape(text: string)
    ensures forall i :: 0 <= i < |ReturnItems(text)| ==>
      Stripped(ReturnItems(text)[i]) && ',' !in ReturnItems(text)[i]
  {
    var pieces := Split(text, ',');
    forall i | 0 <= i < |pieces| ensures Stripped(Strip(pieces[i])) && ',' !in Strip(pieces[i]) {
      StripResult(pieces[i]);
    }
  }

  /** Each name once, at its first occurrence: the list the dedupe loop has built after reading `xs`. */
  function Dedupe(xs: seq<string>): (r: seq<string>)
    ensures Distinct(r)
    ensures forall x :: x in r <==> x in xs
    decreases |xs|
  {
    if xs == [] then []
    else
      var d := Dedupe(xs[..|xs| - 1]);
      var x := xs[|xs| - 1];
      assert forall y :: y in xs <==> y in xs[..|xs| - 1] || y == x;
      if x in d then d else d + [x]
  }

  /** The position of the first occurrence of `x`. */
  function FirstIndex(xs: seq<string>, x: string): (i: nat)
    requires x in xs
    ensures i < |xs| && xs[i] == x && forall k :: 0 <= k < i ==> xs[k] != x
  {
    if xs[0] == x then 0 else FirstIndex(xs[1..], x) + 1
  }

  lemma {:induction false} FirstIndexUnique(xs: seq<string>, x: string, i: nat)
    requires i < |xs| && xs[i] == x && forall k :: 0 <= k < i ==> xs[k] != x
    ensures FirstIndex(xs, x) == i
  {
  }

  /** A name occurring in the first `n` names first occurs where it first occurs among them. */
  lemma {:induction false} FirstIndexPrefix(xs: seq<string>, n: nat, y: string)
    requires n <= |xs| && y in xs[..n]
    ensures y in xs && FirstIndex(xs, y) == FirstIndex(xs[..n], y) < n
  {
    var k := FirstIndex(xs[..n], y);
    assert xs[k] == y;
    FirstIndexUnique(xs, y, k);
  }

  /** The names of `r`, all taken from `xs`, come in the order of their first occurrences in `xs`. */
  predicate FirstOccurrenceOrder(xs: seq<string>, r: seq<string>)
  {
    forall i, j :: 0 <= i < j < |r| ==> r[i] in xs && r[j] in xs && FirstIndex(xs, r[i]) < FirstIndex(xs, r[j])
  }

  /** The deduplicated names keep the order of their first occurrences. */
  lemma {:induction false} DedupeOrder(xs: seq<string>)
    ensures FirstOccurrenceOrder(xs, Dedupe(xs))
    decreases |xs|
  {
    if xs != [] {
      var init := xs[..|xs| - 1];
      var d := Dedupe(init);
      DedupeOrder(init);
      var r := Dedupe(xs);
      forall i, j | 0 <= i < j < |r| ensures r[i] in xs && r[j] in xs && FirstIndex(xs, r[i]) < FirstIndex(xs, r[j]) {
        DedupeOrderStep(xs, init, d, r, i, j);
      }
    }
  }

  /** The inductive step of `DedupeOrder`: appending one name keeps the order of first occurrences. */
  lemma {:induction false} DedupeOrderStep(xs: seq<string>, init: seq<string>, d: seq<string>, r: seq<string>, i: nat, j: nat)
    requires xs != [] && init == xs[..|xs| - 1] && d == Dedupe(init) && r == Dedupe(xs)
    requires FirstOccurrenceOrder(init, d)
    requires i < j < |r|
    ensures r[i] in xs && r[j] in xs && FirstIndex(xs, r[i]) < FirstIndex(xs, r[j])
  {
    var x := xs[|xs| - 1];
    assert xs[..|init|] == init;
    assert r == d || (x !in init && r == d + [x]);
    assert r[i] == d[i] && d[i] in init;
    FirstIndexPrefix(xs, |init|, r[i]);
    if j < |d| {
      assert r[j] == d[j] && d[j] in init;
      FirstIndexPrefix(xs, |init|, r[j]);
      assert FirstIndex(init, d[i]) < FirstIndex(init, d[j]);
    } else {
      assert r[j] == x && x !in init;
      assert forall k :: 0 <= k < |init| ==> xs[k] == init[k];
      FirstIndexUnique(xs, x, |init|);
    }
  }

  /** A list without repeats is its own deduplication. */
  lemma {:induction false} DedupeDistinct(xs: seq<string>)
    requires Distinct(xs)
    ensures Dedupe(xs) == xs
    decreases |xs|
  {
    if xs != [] {
      var init := xs[..|xs| - 1];
      assert Distinct(init);
      DedupeDistinct(init);
      assert xs[|xs| - 1] !in init;
      assert init + [xs[|xs| - 1]] == xs;
    }
  }

  /** Deduplicating twice is deduplicating once. */
  lemma {:induction false} DedupeIdempotent(xs: seq<string>)
    ensures Dedupe(Dedupe(xs)) == Dedupe(xs)
  {
    DedupeDistinct(Dedupe(xs));
  }

  /** `remove_duplicate_return_variable` on the RETURN text. */
  function DedupeText(text: string): string
  {
    Join(Dedupe(ReturnItems(text)), ", ")
  }

  /** The dedupe loop: each stripped name is appended unless already present. */
  method DedupeNames(items: seq<string>) returns (names: seq<string>)
    ensures names == Dedupe(items)
  {
    names := [];
    var i := 0;
    while i < |items|
      invariant 0 <= i <= |items|
      invariant names == Dedupe(items[..i])
    {
      assert items[..i + 1][..i] == items[..i];
      if items[i] !in names {
        names := names + [items[i]];
      }
      i := i + 1;
    }
    assert items[..|items|] == items;
  }

  /** `remove_duplicate_return_variable` on the RETURN text: split, strip, dedupe, join with `", "`. */
  method RemoveDuplicateReturnVariable(text: string) returns (r: string)
    ensures r == DedupeText(text)
  {
    var items := Split(text, ',');
    ghost var all := ReturnItems(text);
    var names := [];
    var i := 0;
    while i < |items|
      invariant 0 <= i <= |items| == |all|
      invariant names == Dedupe(all[..i])
    {
      var name := Strip(items[i]);
      assert all[..i + 1][..i] == all[..i] && all[..i + 1][i] == name;
      if name !in names {
        names := names + [name];
      }
      i := i + 1;
    }
    assert all[..|items|] == all;
    r := Join(names, ", ");
  }

  /** Splitting a `", "`-joined list at its commas gives the names back, all but the first led by the space. */
  lemma {:induction false} SplitJoin(xs: seq<string>, p: string)
    requires xs != [] && ',' !in p && forall i :: 0 <= i < |xs| ==> ',' !in xs[i]
    ensures var pieces := Split(p + Join(xs, ", "), ',');
      |pieces| == |xs| && pieces[0] == p + xs[0] && forall i :: 1 <= i < |xs| ==> pieces[i] == " " + xs[i]
    decreases |xs|
  {
    if |xs| == 1 {
      assert ',' !in p + xs[0];
    } else {
      var rest := xs[1..];
      var s := p + Join(xs, ", ");
      assert s == (p + xs[0]) + [','] + (" " + Join(rest, ", "));
      SplitAtFirstUnique(s, ',', p + xs[0], " " + Join(rest, ", "));
      SplitJoin(rest, " ");
      var tail := Split(" " + Join(rest, ", "), ',');
      var pieces := Split(s, ',');
      SplitFirst(s, ',');
      assert pieces == [p + xs[0]] + tail;
      forall i | 1 <= i < |xs| ensures pieces[i] == " " + xs[i] {
        assert pieces[i] == tail[i - 1] && rest[i - 1] == xs[i];
      }
    }
  }

  /** Reading back a `", "`-joined list of stripped, comma-free names gives the names. */
  lemma {:induction false} ReturnItemsOfJoin(xs: seq<string>)
    requires xs != [] && forall i :: 0 <= i < |xs| ==> Stripped(xs[i]) && ',' !in xs[i]
    ensures ReturnItems(Join(xs, ", ")) == xs
  {
    var joined := Join(xs, ", ");
    var pieces := Split(joined, ',');
    assert |pieces| == |xs| && pieces[0] == xs[0] && forall i :: 1 <= i < |xs| ==> pieces[i] == " " + xs[i] by {
      SplitJoin(xs, "");
      assert "" + joined == joined;
    }
    var items := ReturnItems(joined);
    assert |items| == |xs|;
    forall i | 0 <= i < |xs| ensures items[i] == xs[i] {
      assert items[i] == Strip(pieces[i]);
      if i == 0 {
        StrippedFixed(xs[0]);
      } else {
        assert pieces[i] == [' '] + xs[i];
        StripLeadingSpace(xs[i]);
      }
    }
  }

  /** Removing duplicate RETURN names twice is removing them once. */
  lemma {:induction false} DedupeTextIdempotent(text: string)
    ensures DedupeText(DedupeText(text)) == DedupeText(text)
  {
    var items := ReturnItems(text);
    var names := Dedupe(items);
    ReturnItemsShape(text);
    forall i | 0 <= i < |names| ensures Stripped(names[i]) && ',' !in names[i] {
      assert names[i] in items;
      var j :| 0 <= j < |items| && items[j] == names[i];
    }
    assert names != [] by {
      assert items[0] in names;
    }
    var once := Join(names, ", ");
    assert DedupeText(text) == once;
    ReturnItemsOfJoin(names);
    assert ReturnItems(once) == names;
    DedupeIdempotent(items);
    assert DedupeText(once) == Join(Dedupe(names), ", ");
  }

  /**
   * One step of the include-all loop: a variable is put at the front unless
   * it is already listed or, when it has an alias, its alias is listed.
   */
  function IncludeOne(vars: map<string, VarRecord>, k: string, names: seq<string>): seq<string>
    requires k in vars
  {
    var a := vars[k].alias;
    if a != "" then (if k !in names && a !in names then [k] + names else names)
    else if k !in names then [k] + names else names
  }

  /** The include-all loop over `keys`, in order. */
  function IncludeFrom(vars: map<string, VarRecord>, keys: seq<string>, names: seq<string>): seq<string>
    requires forall i :: 0 <= i < |keys| ==> keys[i] in vars
    decreases |keys|
  {
    if keys == [] then names else IncludeFrom(vars, keys[1..], IncludeOne(vars, keys[0], names))
  }

  /** The loop at position `i`: one step, then the rest. */
  lemma IncludeFromUnroll(vars: map<string, VarRecord>, keys: seq<string>, i: nat, names: seq<string>)
    requires i < |keys| && forall j :: 0 <= j < |keys| ==> keys[j] in vars
    ensures IncludeFrom(vars, keys[i..], names) == IncludeFrom(vars, keys[i + 1..], IncludeOne(vars, keys[i], names))
  {
    assert keys[i..][0] == keys[i] && keys[i..][1..] == keys[i + 1..];
  }

  /** A variable counts as returned when it is listed, or its alias is. */
  predicate Covered(vars: map<string, VarRecord>, k: string, names: seq<string>)
    requires k in vars
  {
    k in names || (vars[k].alias != "" && vars[k].alias in names)
  }

  /** `r` ends with `names`, and every name it adds in front of them is one of `keys`. */
  predicate PrependedFrom(r: seq<string>, names: seq<string>, keys: seq<string>)
  {
    && |names| <= |r| && r[|r| - |names|..] == names
    && forall i :: 0 <= i < |r| - |names| ==> r[i] in keys
  }

  /** One step keeps the list or puts the key, not yet listed, in front of it. */
  lemma IncludeOneShape(vars: map<string, VarRecord>, k: string, names: seq<string>)
    requires k in vars
    ensures var n1 := IncludeOne(vars, k, names);
      n1 == names || (n1 == [k] + names && k !in names)
    ensures Distinct(names) ==> Distinct(IncludeOne(vars, k, names))
  {
    var n1 := IncludeOne(vars, k, names);
    if n1 != names && Distinct(names) {
      assert n1 == [k] + names && k !in names;
      forall i, j | 0 <= i < j < |n1| ensures n1[i] != n1[j] {
        if i == 0 {
          assert n1[j] == names[j - 1];
        } else {
          assert n1[i] == names[i - 1] && n1[j] == names[j - 1];
        }
      }
    }
  }

  /** What the later steps add in front of the first step's list, together with the first step's name. */
  lemma PrependedCompose(r: seq<string>, n1: seq<string>, names: seq<string>, keys: seq<string>)
    requires keys != [] && PrependedFrom(r, n1, keys[1..])
    requires n1 == names || n1 == [keys[0]] + names
    ensures PrependedFrom(r, names, keys)
  {
    assert r[|r| - |n1|..][|n1| - |names|..] == names;
    forall i | 0 <= i < |r| - |names| ensures r[i] in keys {
      if i < |r| - |n1| {
        assert r[i] in keys[1..];
      } else {
        assert r[i] == n1[i - (|r| - |n1|)] == keys[0];
      }
    }
  }

  /**
   * Including all variables only puts names in front of the list: the old
   * list is a suffix of the result, every added name is one of the keys, and
   * no name is listed twice if none was before.
   */
  lemma {:induction false} IncludeFromPrepends(vars: map<string, VarRecord>, keys: seq<string>, names: seq<string>)
    requires forall i :: 0 <= i < |keys| ==> keys[i] in vars
    ensures PrependedFrom(IncludeFrom(vars, keys, names), names, keys)
    ensures Distinct(names) ==> Distinct(IncludeFrom(vars, keys, names))
    decreases |keys|
  {
    if keys == [] {
      assert IncludeFrom(vars, keys, names) == names;
    } else {
      var n1 := IncludeOne(vars, keys[0], names);
      IncludeOneShape(vars, keys[0], names);
      IncludeFromPrepends(vars, keys[1..], n1);
      PrependedCompose(IncludeFrom(vars, keys[1..], n1), n1, names, keys);
    }
  }

  /** After the include-all loop every key is covered, by itself or by its alias. */
  lemma {:induction false} IncludeFromCovers(vars: map<string, VarRecord>, keys: seq<string>, names: seq<string>)
    requires forall i :: 0 <= i < |keys| ==> keys[i] in vars
    ensures forall i :: 0 <= i < |keys| ==> Covered(vars, keys[i], IncludeFrom(vars, keys, names))
    decreases |keys|
  {
    if keys != [] {
      var n1 := IncludeOne(vars, keys[0], names);
      IncludeFromCovers(vars, keys[1..], n1);
      IncludeFromPrepends(vars, keys[1..], n1);
      var r := IncludeFrom(vars, keys[1..], n1);
      assert Covered(vars, keys[0], n1);
      assert forall x :: x in n1 ==> x in r by {
        forall x | x in n1 ensures x in r {
          var j :| 0 <= j < |n1| && n1[j] == x;
          assert r[|r| - |n1|..][j] == x;
        }
      }
      forall i | 0 <= i < |keys| ensures Covered(vars, keys[i], r) {
        if i > 0 {
          assert keys[i] == keys[1..][i - 1];
        }
      }
    }
  }

  /** `query_exact_match`: equal after collapsing every whitespace run to one space and trimming the ends. */
  function QueryExactMatch(q1: string, q2: string): bool
  {
    Join(Words(q1), " ") == Join(Words(q2), " ")
  }

  /** Splitting a space-joined list of words gives the words back. */
  lemma {:induction false} WordsOfJoin(ws: seq<string>)
    requires forall i :: 0 <= i < |ws| ==> ws[i] != [] && NoSpace(ws[i])
    ensures Words(Join(ws, " ")) == ws
    decreases |ws|
  {
    if |ws| == 1 {
      WordsOfWord(ws[0], []);
      assert ws[0] + [] == ws[0];
    } else if |ws| > 1 {
      var rest := ws[1..];
      var tail := Join(rest, " ");
      WordsOfJoin(rest);
      var spaced := " " + tail;
      assert IsSpace(spaced[0]) && spaced[1..] == tail;
      WordsSkip(spaced);
      WordsOfWord(ws[0], spaced);
      assert Join(ws, " ") == ws[0] + spaced;
      assert ws == [ws[0]] + rest;
    }
  }

  /** A word followed by nothing or by whitespace is read as one word, then the rest. */
  lemma {:induction false} WordsOfWord(w: string, s: string)
    requires w != [] && NoSpace(w) && (s == [] || IsSpace(s[0]))
    ensures Words(w + s) == [w] + Words(s)
  {
    assert (w + s)[0] == w[0];
    WordsTake(w + s);
    WordOfWord(w, s);
    assert (w + s)[|w|..] == s;
  }

  lemma {:induction false} WordOfWord(w: string, s: string)
    requires NoSpace(w) && (s == [] || IsSpace(s[0]))
    ensures Word(w + s) == w
    decreases |w|
  {
    if w != [] {
      WordOfWord(w[1..], s);
      assert (w + s)[1..] == w[1..] + s;
    }
  }

  /** Two queries match exactly when they have the same words in the same order. */
  lemma {:induction false} QueryExactMatchWords(q1: string, q2: string)
    ensures QueryExactMatch(q1, q2) <==> Words(q1) == Words(q2)
  {
    if QueryExactMatch(q1, q2) {
      WordsShape(q1);
      WordsShape(q2);
      WordsOfJoin(Words(q1));
      WordsOfJoin(Words(q2));
    }
  }

  /** Replacing one whitespace character by another never changes the verdict. */
  lemma {:induction false} WhitespaceIrrelevant(a: string, b: string, c: char, d: char)
    requires IsSpace(c) && IsSpace(d)
    ensures QueryExactMatch(a + [c] + b, a + [d] + b)
  {
    WordsSpaceSwap(a, b, c, d);
  }

  lemma {:induction false} WordsSpaceSwap(a: string, b: string, c: char, d: char)
    requires IsSpace(c) && IsSpace(d)
    ensures Words(a + [c] + b) == Words(a + [d] + b)
    decreases |a|, 1
  {
    if a == [] {
      assert a + [c] + b == [c] + b && a + [d] + b == [d] + b;
      SpaceThenRest(c, d, b);
    } else if IsSpace(a[0]) {
      SwapAfterSpace(a, b, c, d);
    } else {
      SwapAfterWord(a, b, c, d);
    }
  }

  /** The swap behind leading whitespace: both texts skip it alike. */
  lemma {:induction false} SwapAfterSpace(a: string, b: string, c: char, d: char)
    requires IsSpace(c) && IsSpace(d) && a != [] && IsSpace(a[0])
    ensures Words(a + [c] + b) == Words(a + [d] + b)
    decreases |a|, 0
  {
    var x := a + [c] + b;
    var y := a + [d] + b;
    assert x[0] == a[0] == y[0];
    WordsSkip(x);
    WordsSkip(y);
    assert x[1..] == a[1..] + [c] + b;
    assert y[1..] == a[1..] + [d] + b;
    WordsSpaceSwap(a[1..], b, c, d);
  }

  /** The swap behind a leading word: both texts read the same word first. */
  lemma {:induction false} SwapAfterWord(a: string, b: string, c: char, d: char)
    requires IsSpace(c) && IsSpace(d) && a != [] && !IsSpace(a[0])
    ensures Words(a + [c] + b) == Words(a + [d] + b)
    decreases |a|, 0
  {
    var x := a + [c] + b;
    var y := a + [d] + b;
    assert x[0] == a[0] == y[0];
    WordsTake(x);
    WordsTake(y);
    var w := Word(a);
    WordSpaceSwap(a, b, c, d);
    DropAround(a, b, c, |w|);
    DropAround(a, b, d, |w|);
    if |w| < |a| {
      WordsSpaceSwap(a[|w|..], b, c, d);
    } else {
      assert a[|w|..] == [];
      SpaceThenRest(c, d, b);
    }
  }

  /** A whitespace run counts as one space: a second whitespace character never changes the verdict. */
  lemma RunsCollapse(a: string, b: string, c: char, d: char)
    requires IsSpace(c) && IsSpace(d)
    ensures QueryExactMatch(a + [c] + b, a + [c, d] + b)
  {
    WordsCollapseRun(a, b, c, d);
  }

  /** Whitespace at either end of a query never changes the verdict. */
  lemma EndsTrimmed(s: string, c: char)
    requires IsSpace(c)
    ensures QueryExactMatch([c] + s, s) && QueryExactMatch(s + [c], s)
  {
    assert ([c] + s)[1..] == s;
    WordsSkip([c] + s);
    WordsTrailingSpace(s, c);
  }

  lemma {:induction false} WordsCollapseRun(a: string, b: string, c: char, d: char)
    requires IsSpace(c) && IsSpace(d)
    ensures Words(a + [c] + b) == Words(a + [c, d] + b)
    decreases |a|, 1
  {
    if a == [] {
      var x := [c] + b;
      var y := [c, d] + b;
      assert a + [c] + b == x && a + [c, d] + b == y;
      assert x[1..] == b && y[1..] == [d] + b && y[1..][1..] == b;
      WordsSkip(x);
      WordsSkip(y);
      WordsSkip(y[1..]);
    } else if IsSpace(a[0]) {
      CollapseAfterSpace(a, b, c, d);
    } else {
      CollapseAfterWord(a, b, c, d);
    }
  }

  /** The collapse behind leading whitespace: both texts skip it alike. */
  lemma {:induction false} CollapseAfterSpace(a: string, b: string, c: char, d: char)
    requires IsSpace(c) && IsSpace(d) && a != [] && IsSpace(a[0])
    ensures Words(a + [c] + b) == Words(a + [c, d] + b)
    decreases |a|, 0
  {
    var x := a + [c] + b;
    var y := a + [c, d] + b;
    assert x[0] == a[0] == y[0];
    WordsSkip(x);
    WordsSkip(y);
    assert x[1..] == a[1..] + [c] + b;
    assert y[1..] == a[1..] + [c, d] + b;
    WordsCollapseRun(a[1..], b, c, d);
  }

  /** The collapse behind a leading word: both texts read the same word first. */
  lemma {:induction false} CollapseAfterWord(a: string, b: string, c: char, d: char)
    requires IsSpace(c) && IsSpace(d) && a != [] && !IsSpace(a[0])
    ensures Words(a + [c] + b) == Words(a + [c, d] + b)
    decreases |a|, 0
  {
    var x := a + [c] + b;
    var y := a + [c] + ([d] + b);
    assert y == a + [c, d] + b;
    assert x[0] == a[0] == y[0];
    WordsTake(x);
    WordsTake(y);
    var w := Word(a);
    WordSpaceSwap(a, b, c, c);
    WordSpaceSwap(a, [d] + b, c, c);
    DropAround(a, b, c, |w|);
    DropAround(a, [d] + b, c, |w|);
    assert a[|w|..] + [c] + ([d] + b) == a[|w|..] + [c, d] + b;
    WordsCollapseRun(a[|w|..], b, c, d);
  }

  /** Trailing whitespace adds no word. */
  lemma {:induction false} WordsTrailingSpace(s: string, c: char)
    requires IsSpace(c)
    ensures Words(s + [c]) == Words(s)
    decreases |s|
  {
    if s == [] {
      assert s + [c] == [c] && [c][1..] == [];
      WordsSkip([c]);
    } else {
      var x := s + [c];
      assert x[0] == s[0];
      if IsSpace(s[0]) {
        WordsSkip(x);
        assert x[1..] == s[1..] + [c];
        WordsTrailingSpace(s[1..], c);
      } else {
        WordsTake(x);
        var w := Word(s);
        WordSpaceSwap(s, [], c, c);
        assert s + [c] + [] == x;
        assert x[|w|..] == s[|w|..] + [c];
        WordsTrailingSpace(s[|w|..], c);
      }
    }
  }

  /** Dropping part of the prefix in front of the separator. */
  lemma DropAround(a: string, b: string, c: char, k: nat)
    requires k <= |a|
    ensures (a + [c] + b)[k..] == a[k..] + [c] + b
  {
  }

  /** Either whitespace character in front of `b` is skipped. */
  lemma SpaceThenRest(c: char, d: char, b: string)
    requires IsSpace(c) && IsSpace(d)
    ensures Words([c] + b) == Words([d] + b)
  {
    assert ([c] + b)[1..] == b == ([d] + b)[1..];
    WordsSkip([c] + b);
    WordsSkip([d] + b);
  }

  /** The first word does not depend on which whitespace character follows the prefix. */
  lemma {:induction false} WordSpaceSwap(a: string, b: string, c: char, d: char)
    requires IsSpace(c) && IsSpace(d)
    ensures Word(a + [c] + b) == Word(a + [d] + b) == Word(a)
    decreases |a|
  {
    if a != [] && !IsSpace(a[0]) {
      WordSpaceSwap(a[1..], b, c, d);
      assert (a + [c] + b)[1..] == a[1..] + [c] + b;
      assert (a + [d] + b)[1..] == a[1..] + [d] + b;
    }
  }
}
