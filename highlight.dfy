/**
  `highlight` of app.js: each non-empty term in turn wraps every
  left-to-right, non-overlapping, case-insensitive occurrence of itself in
  `<mark>` … `</mark>`, keeping the text's own casing. Each term's pass
  works on the output of the previous one, markup included.

  The source builds a regular expression from the term; the model treats
  the term literally and so asks that it hold no regular-expression
  metacharacter.
*/
module Highlighter {
  import opened Common
  import opened Text

  const Open: string := "<mark>"
  const Close: string := "</mark>"

  /** A term the regular expression reads literally. */
  predicate Literal(q: string) {
    forall i :: 0 <= i < |q| ==> q[i] !in "\\^$.|?*+()[]{}"
  }

  predicate AllLiteral(qs: seq<string>) {
    forall k :: 0 <= k < |qs| ==> Literal(qs[k])
  }

  /** Term `q` occurs in `s` at `i`, ignoring case (the `i` flag). */
  predicate MatchAt(s: string, q: string, i: int) {
    0 <= i && i + |q| <= |s| && Lower(s[i..i + |q|]) == Lower(q)
  }

  /** `s.replace(/(q)/gi, '<mark>$1</mark>')`: scanning from the left, an
      occurrence is wrapped and the scan resumes after it; otherwise one
      character is kept and the scan moves on. Only whole marker pairs are
      inserted, so the text grows by a multiple of their length. */
  function MarkTerm(s: string, q: string): (r: string)
    requires q != "" && Literal(q)
    ensures |r| >= |s| && (|r| - |s|) % (|Open| + |Close|) == 0
    decreases |s|
  {
    if s == [] then []
    else if MatchAt(s, q, 0) then
      var rest := MarkTerm(s[|q|..], q);
      MarkupStep(|s[|q|..]|, |rest|, |rest| + |Open| + |Close|);
      Open + s[..|q|] + Close + rest
    else [s[0]] + MarkTerm(s[1..], q)
  }

  /** `highlight(text, queries)`: the terms in order, empty ones skipped;
      like each pass, the whole only inserts marker pairs. */
  function MarkAll(text: string, qs: seq<string>): (r: string)
    requires AllLiteral(qs)
    ensures |r| >= |text| && (|r| - |text|) % (|Open| + |Close|) == 0
    decreases |qs|
  {
    if qs == [] then text
    else
      var next := if qs[0] != "" then MarkTerm(text, qs[0]) else text;
      var r := MarkAll(next, qs[1..]);
      MarkupStep(|text|, |next|, |r|);
      r
  }

  /** Two growths by whole marker pairs make one. */
  lemma MarkupStep(a: int, b: int, c: int)
    requires (b - a) % (|Open| + |Close|) == 0 && (c - b) % (|Open| + |Close|) == 0
    ensures (c - a) % (|Open| + |Close|) == 0
  {
    assert |Open| + |Close| == 13;
    assert c - a == (c - b) + (b - a);
  }

  /** `highlight`, with its `forEach` over the terms as a loop. */
  method Highlight(text: string, queries: seq<string>) returns (highlighted: string)
    requires AllLiteral(queries)
    ensures highlighted == MarkAll(text, queries)
  {
    if |queries| == 0 {
      return text;
    }
    highlighted := text;
    for k := 0 to |queries|
      invariant MarkAll(highlighted, queries[k..]) == MarkAll(text, queries)
    {
      assert queries[k..][1..] == queries[k + 1..];
      if queries[k] != "" {
        highlighted := MarkTerm(highlighted, queries[k]);
      }
    }
  }

  // ---------------------------------------------------------------------
  // Removing the markers again
  // ---------------------------------------------------------------------

  /** The text with every `<mark>` and `</mark>` marker taken out. */
  function Unmark(t: string): string
    decreases |t|
  {
    if t == [] then []
    else if |Open| <= |t| && t[..|Open|] == Open then Unmark(t[|Open|..])
    else if |Close| <= |t| && t[..|Close|] == Close then Unmark(t[|Close|..])
    else [t[0]] + Unmark(t[1..])
  }

  /** Text without '<' passes through `Unmark` untouched. */
  lemma {:induction false} UnmarkPlain(a: string, b: string)
    requires '<' !in a
    ensures Unmark(a + b) == a + Unmark(b)
    decreases |a|
  {
    if a != [] {
      var t := a + b;
      assert t[0] == a[0] != '<';
      assert Open[0] == '<' && Close[0] == '<';
      assert |Open| <= |t| ==> t[..|Open|][0] == t[0];
      assert |Close| <= |t| ==> t[..|Close|][0] == t[0];
      assert t[1..] == a[1..] + b;
      assert '<' !in a[1..];
      UnmarkPlain(a[1..], b);
      assert Unmark(t) == [t[0]] + Unmark(t[1..]);
      assert [a[0]] + (a[1..] + Unmark(b)) == a + Unmark(b);
    } else {
      assert a + b == b;
    }
  }

  /** For text without '<', taking the markers out of one term's
      highlighting gives back the text. */
  lemma {:induction false} MarkTermRoundTrip(s: string, q: string)
    requires q != "" && Literal(q) && '<' !in s
    ensures Unmark(MarkTerm(s, q)) == s
    decreases |s|
  {
    if s != [] {
      if MatchAt(s, q, 0) {
        UnmarkMarked(s[..|q|], MarkTerm(s[|q|..], q));
        MarkTermRoundTrip(s[|q|..], q);
        assert s[..|q|] + s[|q|..] == s;
      } else {
        UnmarkPlain([s[0]], MarkTerm(s[1..], q));
        MarkTermRoundTrip(s[1..], q);
        assert [s[0]] + s[1..] == s;
      }
    }
  }

  /** One marked occurrence loses its two markers. */
  lemma UnmarkMarked(hit: string, rest: string)
    requires '<' !in hit
    ensures Unmark(Open + hit + Close + rest) == hit + Unmark(rest)
  {
    assert Open + hit + Close + rest == Open + (hit + (Close + rest));
    assert Unmark(Open + (hit + (Close + rest))) == Unmark(hit + (Close + rest));
    UnmarkPlain(hit, Close + rest);
    var c := Close + rest;
    assert c[1] == '/' != Open[1];
    assert c[..|Close|] == Close && c[|Close|..] == rest;
    assert Unmark(c) == Unmark(rest);
  }

  // ---------------------------------------------------------------------
  // When a term changes the text
  // ---------------------------------------------------------------------

  /** Some occurrence of `q` in `s`, ignoring case. */
  predicate HasMatch(s: string, q: string) {
    exists i | 0 <= i <= |s| :: MatchAt(s, q, i)
  }

  lemma {:induction false} MarkTermNoMatch(s: string, q: string)
    requires q != "" && Literal(q) && !HasMatch(s, q)
    ensures MarkTerm(s, q) == s
    decreases |s|
  {
    if s != [] {
      assert !MatchAt(s, q, 0);
      forall i | 0 <= i && i + |q| <= |s| - 1 ensures !MatchAt(s[1..], q, i) {
        assert !MatchAt(s, q, i + 1);
        assert s[1..][i..i + |q|] == s[i + 1..i + 1 + |q|];
      }
      MarkTermNoMatch(s[1..], q);
    }
  }

  lemma {:induction false} MarkTermGrows(s: string, q: string)
    requires q != "" && Literal(q)
    ensures HasMatch(s, q) ==> |MarkTerm(s, q)| > |s|
    decreases |s|
  {
    if s != [] {
      if MatchAt(s, q, 0) {
        MarkTermGrows(s[|q|..], q);
      } else {
        MarkTermGrows(s[1..], q);
        if HasMatch(s, q) {
          var i :| 0 <= i <= |s| && MatchAt(s, q, i);
          assert i > 0;
          assert s[1..][i - 1..i - 1 + |q|] == s[i..i + |q|];
          assert MatchAt(s[1..], q, i - 1);
        }
      }
    }
  }

  /** The first occurrence of `q` is the first one wrapped: the text before
      it is kept as it is, the occurrence is wrapped with its own casing, and
      the scan resumes right after it. With `MarkTermNoMatch` this fixes the
      whole pass: the wrapped occurrences are the left-to-right,
      non-overlapping matches. */
  lemma MarkTermFirstMatch(s: string, q: string, i: nat)
    requires q != "" && Literal(q) && MatchAt(s, q, i)
    requires forall p :: 0 <= p < i ==> !MatchAt(s, q, p)
    ensures MarkTerm(s, q) == s[..i] + Open + s[i..i + |q|] + Close + MarkTerm(s[i + |q|..], q)
  {
    assert s == s[..i] + s[i..i + |q|] + s[i + |q|..];
    MarkTermSplit(s[..i], s[i..i + |q|], s[i + |q|..], q);
  }

  /** `MarkTermFirstMatch` over the text cut into the part before the
      occurrence, the occurrence and the part after it; by induction on the
      part before. */
  lemma {:induction false} MarkTermSplit(pre: string, m: string, post: string, q: string)
    requires q != "" && Literal(q) && |m| == |q| && Lower(m) == Lower(q)
    requires forall p :: 0 <= p < |pre| ==> !MatchAt(pre + m + post, q, p)
    ensures MarkTerm(pre + m + post, q) == pre + Open + m + Close + MarkTerm(post, q)
    decreases |pre|
  {
    var s := pre + m + post;
    if pre == [] {
      assert s == m + post;
      assert s[..|q|] == m && s[|q|..] == post;
      assert MatchAt(s, q, 0);
      assert pre + Open == Open;
    } else {
      var t := pre[1..] + m + post;
      assert s[1..] == t;
      assert !MatchAt(s, q, 0);
      forall p | 0 <= p < |pre| - 1 ensures !MatchAt(t, q, p) {
        MatchShift(s, q, p);
      }
      MarkTermSplit(pre[1..], m, post, q);
      MarkTermKeep(s, q);
      assert [s[0]] + pre[1..] == pre;
      PrependKept(s[0], pre[1..], m, MarkTerm(post, q));
    }
  }

  /** Without a match at the start, the first character is kept. */
  lemma MarkTermKeep(s: string, q: string)
    requires q != "" && Literal(q) && s != [] && !MatchAt(s, q, 0)
    ensures MarkTerm(s, q) == [s[0]] + MarkTerm(s[1..], q)
  {
  }

  /** Dropping the first character moves every occurrence one place left. */
  lemma MatchShift(s: string, q: string, p: nat)
    requires s != []
    ensures MatchAt(s[1..], q, p) <==> MatchAt(s, q, p + 1)
  {
    if p + |q| <= |s| - 1 {
      SliceOfSuffix(s, 1, p, p + |q|);
    }
  }

  /** A kept character joins the kept text in front of a wrapped occurrence. */
  lemma PrependKept(c: char, before: string, m: string, rest: string)
    ensures [c] + (before + Open + m + Close + rest) == ([c] + before) + Open + m + Close + rest
  {
  }

  /** A term leaves the text unchanged exactly when it does not occur in it. */
  lemma MarkTermUnchanged(s: string, q: string)
    requires q != "" && Literal(q)
    ensures MarkTerm(s, q) == s <==> !HasMatch(s, q)
  {
    if HasMatch(s, q) {
      MarkTermGrows(s, q);
    } else {
      MarkTermNoMatch(s, q);
    }
  }

  /** A list of one non-empty term makes exactly that term's pass. */
  lemma MarkAllSingle(t: string, q: string)
    requires q != "" && Literal(q)
    ensures AllLiteral([q]) && MarkAll(t, [q]) == MarkTerm(t, q)
  {
    assert [q][1..] == [];
  }

  /** Highlighting with a list of terms is highlighting with the first part
      and then, on the result, with the rest. */
  lemma {:induction false} MarkAllAppend(t: string, a: seq<string>, b: seq<string>)
    requires AllLiteral(a) && AllLiteral(b)
    ensures AllLiteral(a + b)
    ensures MarkAll(t, a + b) == MarkAll(MarkAll(t, a), b)
    decreases |a|
  {
    assert forall k :: 0 <= k < |a + b| ==> (a + b)[k] == (if k < |a| then a[k] else b[k - |a|]);
    if a != [] {
      assert (a + b)[0] == a[0];
      assert (a + b)[1..] == a[1..] + b;
      MarkAllAppend(if a[0] != "" then MarkTerm(t, a[0]) else t, a[1..], b);
    } else {
      assert a + b == b;
    }
  }

  /** Empty terms are skipped: terms that are all empty leave the text as it is. */
  lemma {:induction false} MarkAllSkipsEmpty(t: string, qs: seq<string>)
    requires forall k :: 0 <= k < |qs| ==> qs[k] == ""
    ensures AllLiteral(qs) && MarkAll(t, qs) == t
    decreases |qs|
  {
    if qs != [] {
      MarkAllSkipsEmpty(t, qs[1..]);
    }
  }

  /** The edge case of marking term after term: once some term has matched,
      the term "mark" matches inside the inserted markup, so it changes the
      text even where the original text holds no "mark". */
  lemma NestedMarkup(s: string, q: string)
    requires q != "" && Literal(q) && HasMatch(s, q)
    ensures AllLiteral([q, "mark"])
    ensures MarkAll(s, [q, "mark"]) != MarkAll(s, [q])
  {
    var t := MarkTerm(s, q);
    var i :| 0 <= i <= |s| && MatchAt(s, q, i);
    var j := MarkedAt(s, q, i);
    MarkInsideOpen(t, j);
    MarkTermUnchanged(t, "mark");
    assert MarkAll(s, [q]) == t by {
      assert [q][1..] == [];
    }
    assert MarkAll(s, [q, "mark"]) == MarkTerm(t, "mark") by {
      assert [q, "mark"][1..] == ["mark"];
      assert ["mark"][1..] == [];
    }
  }

  /** The term "mark" matches inside an opening marker. */
  lemma MarkInsideOpen(t: string, j: int)
    requires 0 <= j && j + |Open| <= |t| && t[j..j + |Open|] == Open
    ensures Literal("mark") && MatchAt(t, "mark", j + 1)
  {
    SliceOfSlice(t, j, j + |Open|, 1, 5);
    assert Open[1..5] == "mark";
    assert Lower("mark") == "mark";
  }

  /** Where some term matches, the highlighted text holds an opening marker. */
  lemma {:induction false} MarkedAt(s: string, q: string, i: int) returns (j: int)
    requires q != "" && Literal(q) && 0 <= i <= |s| && MatchAt(s, q, i)
    ensures 0 <= j && j + |Open| <= |MarkTerm(s, q)| && MarkTerm(s, q)[j..j + |Open|] == Open
    decreases |s|
  {
    if MatchAt(s, q, 0) {
      j := 0;
    } else {
      SliceOfSuffix(s, 1, i - 1, i - 1 + |q|);
      var k := MarkedAt(s[1..], q, i - 1);
      j := k + 1;
      var rest := MarkTerm(s[1..], q);
      var t := [s[0]] + rest;
      assert MarkTerm(s, q) == t && t[1..] == rest;
      SliceOfSuffix(t, 1, k, k + |Open|);
    }
  }

  /** "Anna" with the term "an": the first two letters are marked with
      their own casing, and the "na" after them is not a match. */
  lemma AnnaExample()
    ensures MarkTerm("Anna", "an") == "<mark>An</mark>na"
  {
    AnnaTail();
    assert Lower("An") == "an" && Lower("an") == "an";
    assert MatchAt("Anna", "an", 0);
    assert "Anna"[..2] == "An" && "Anna"[2..] == "na";
  }

  lemma AnnaTail()
    ensures MarkTerm("na", "an") == "na"
  {
    assert Lower("na") == "na" && Lower("an") == "an";
    assert "na"[0..2] == "na" && "na"[0] != "an"[0];
    assert !MatchAt("na", "an", 0);
    assert "na"[1..] == "a";
    assert MarkTerm("a", "an") == "a";
  }
}
