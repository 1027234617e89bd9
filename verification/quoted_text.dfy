/**
 Text laid out as quote-free fields separated by single quote characters:
 `fs[0] "fs[1]" fs[2] ...` without the spaces. A flat object text such as
 `{"vaga_1":"RFID002"}` has this shape, with fields `{`, `vaga_1`, `:`,
 `RFID002` and `}`. The lemmas here say where a pattern can occur in such a
 text: a quote-free pattern lies inside one field, and a quoted word sits
 exactly on one whole field.
 */
module QuotedText {
  import opened ArduinoString

  /** `w` holds no quote character. */
  predicate QuoteFree(w: string)
  {
    forall i :: 0 <= i < |w| ==> w[i] != '"'
  }

  /** Every field is quote-free. */
  predicate AllQuoteFree(fs: seq<string>)
  {
    forall f :: 0 <= f < |fs| ==> QuoteFree(fs[f])
  }

  /** The fields joined with one quote between neighbours. */
  function Join(fs: seq<string>): string
    requires |fs| > 0
  {
    if |fs| == 1 then fs[0] else fs[0] + "\"" + Join(fs[1..])
  }

  /** The position in `Join(fs)` where field `f` starts. */
  function Start(fs: seq<string>, f: nat): nat
    requires f < |fs|
  {
    if f == 0 then 0 else |fs[0]| + 1 + Start(fs[1..], f - 1)
  }

  /** The last field ends the text. */
  lemma {:induction false} JoinLength(fs: seq<string>)
    requires |fs| > 0
    ensures |Join(fs)| == Start(fs, |fs| - 1) + |fs[|fs| - 1]|
  {
    if |fs| > 1 {
      var rest := fs[1..];
      JoinLength(rest);
      assert rest[|rest| - 1] == fs[|fs| - 1];
      assert Start(fs, |fs| - 1) == |fs[0]| + 1 + Start(rest, |rest| - 1);
      assert |Join(fs)| == |fs[0]| + 1 + |Join(rest)|;
    }
  }

  /** Consecutive fields are one quote apart. */
  lemma {:induction false} StartStep(fs: seq<string>, f: nat)
    requires f + 1 < |fs|
    ensures Start(fs, f + 1) == Start(fs, f) + |fs[f]| + 1
  {
    if f > 0 {
      StartStep(fs[1..], f - 1);
    }
  }

  /** A later field starts after the end of an earlier one and its closing quote. */
  lemma {:induction false} StartMonotone(fs: seq<string>, f: nat, g: nat)
    requires f < g < |fs|
    ensures Start(fs, f) + |fs[f]| < Start(fs, g)
    decreases g - f
  {
    StartStep(fs, f);
    if f + 1 < g {
      StartMonotone(fs, f + 1, g);
    }
  }

  /** Fields start in order. */
  lemma StartOrdered(fs: seq<string>, f: nat, g: nat)
    requires f <= g < |fs|
    ensures Start(fs, f) <= Start(fs, g)
  {
    if f < g {
      StartMonotone(fs, f, g);
    }
  }

  /**
   The field and offset of position `i`: either a character of field `r.0`
   (offset below its length) or the quote that closes it (offset equal to
   its length, which only a field with a successor has).
   */
  function Locate(fs: seq<string>, i: nat): (r: (nat, nat))
    requires |fs| > 0 && i < |Join(fs)|
    ensures r.0 < |fs| && r.1 <= |fs[r.0]|
    ensures i == Start(fs, r.0) + r.1
    ensures r.1 == |fs[r.0]| ==> r.0 + 1 < |fs|
  {
    if i <= |fs[0]| then (0, i)
    else
      var r' := Locate(fs[1..], i - |fs[0]| - 1);
      (r'.0 + 1, r'.1)
  }

  /** Field characters and separating quotes sit where `Start` says. */
  lemma {:induction false} CharAt(fs: seq<string>, f: nat, o: nat)
    requires f < |fs| && o <= |fs[f]|
    requires o == |fs[f]| ==> f + 1 < |fs|
    ensures Start(fs, f) + o < |Join(fs)|
    ensures Join(fs)[Start(fs, f) + o] == if o < |fs[f]| then fs[f][o] else '"'
  {
    if f > 0 {
      CharAt(fs[1..], f - 1, o);
    }
  }

  /** Two descriptions of one position agree. */
  lemma LocateUnique(fs: seq<string>, f: nat, o: nat, g: nat, p: nat)
    requires f < |fs| && o <= |fs[f]| && g < |fs| && p <= |fs[g]|
    requires Start(fs, f) + o == Start(fs, g) + p
    ensures f == g && o == p
  {
    if f < g {
      StartMonotone(fs, f, g);
    } else if g < f {
      StartMonotone(fs, g, f);
    }
  }

  /** In a text of quote-free fields, the quotes are exactly the separators. */
  lemma QuoteAt(fs: seq<string>, i: nat)
    requires |fs| > 0 && AllQuoteFree(fs) && i < |Join(fs)|
    ensures var r := Locate(fs, i);
            Join(fs)[i] == '"' <==> r.1 == |fs[r.0]|
  {
    var r := Locate(fs, i);
    CharAt(fs, r.0, r.1);
  }

  /**
   A quote-free word read from offset `o` of field `g` runs inside that
   field.
   */
  lemma {:induction false} WordInField(fs: seq<string>, g: nat, o: nat, w: string)
    requires |fs| > 0 && AllQuoteFree(fs) && QuoteFree(w)
    requires g < |fs| && o <= |fs[g]|
    requires Start(fs, g) + o + |w| <= |Join(fs)|
    requires Join(fs)[Start(fs, g) + o..Start(fs, g) + o + |w|] == w
    ensures o + |w| <= |fs[g]| && fs[g][o..o + |w|] == w
  {
    var T := Join(fs);
    var s := Start(fs, g) + o;
    JoinLength(fs);
    assert forall t :: 0 <= t < |w| ==> T[s + t] == w[t];
    if g + 1 < |fs| {
      CharAt(fs, g, |fs[g]|);
      assert T[s + (|fs[g]| - o)] == '"';
    }
    forall t | 0 <= t < |w|
      ensures fs[g][o + t] == w[t]
    {
      CharAt(fs, g, o + t);
    }
  }

  /**
   A quote-free pattern occurring in the text lies inside a single field, at
   the offset where its first character is.
   */
  lemma InsideOneField(fs: seq<string>, p: string, i: nat)
    requires |fs| > 0 && AllQuoteFree(fs) && QuoteFree(p) && |p| > 0
    requires OccursAt(Join(fs), p, i)
    ensures var r := Locate(fs, i);
            r.1 + |p| <= |fs[r.0]| && OccursAt(fs[r.0], p, r.1)
  {
    var r := Locate(fs, i);
    WordInField(fs, r.0, r.1, p);
  }

  /**
   A quoted quote-free word `"w"` occurs at `i` exactly when `i` is the
   separator before a whole field equal to `w`, and that field has a
   successor (the closing quote is a separator too).
   */
  lemma QuotedWordAt(fs: seq<string>, w: string, i: nat)
    requires |fs| > 0 && AllQuoteFree(fs) && QuoteFree(w)
    requires OccursAt(Join(fs), "\"" + w + "\"", i)
    ensures var r := Locate(fs, i);
            r.1 == |fs[r.0]| && r.0 + 2 < |fs| && fs[r.0 + 1] == w
  {
    var T := Join(fs);
    var q := "\"" + w + "\"";
    OccurrenceChars(T, q, i);
    var f := Locate(fs, i).0;
    assert T[i] == q[0];
    QuoteAt(fs, i);
    var g := f + 1;
    StartStep(fs, f);
    forall t | 0 <= t < |w|
      ensures T[i + 1 + t] == w[t]
    {
      assert q[1 + t] == w[t];
    }
    OccursFromChars(T, w, i + 1);
    WordInField(fs, g, 0, w);
    var e := i + 1 + |w|;
    assert T[e] == q[|w| + 1];
    QuoteAt(fs, e);
    var r := Locate(fs, e);
    LocateUnique(fs, g, |w|, r.0, r.1);
    assert fs[g] == fs[g][..|w|];
  }

  /** A field with neighbours on both sides sits between two quotes. */
  lemma BetweenQuotes(fs: seq<string>, g: nat)
    requires 1 <= g && g + 1 < |fs|
    ensures Start(fs, g) >= 1
    ensures Start(fs, g) + |fs[g]| < |Join(fs)|
    ensures Join(fs)[Start(fs, g) - 1] == '"'
    ensures Join(fs)[Start(fs, g) + |fs[g]|] == '"'
    ensures Join(fs)[Start(fs, g)..Start(fs, g) + |fs[g]|] == fs[g]
  {
    StartStep(fs, g - 1);
    CharAt(fs, g - 1, |fs[g - 1]|);
    CharAt(fs, g, |fs[g]|);
    forall t | 0 <= t < |fs[g]|
      ensures Join(fs)[Start(fs, g) + t] == fs[g][t]
    {
      CharAt(fs, g, t);
    }
  }

  /** The separator before a whole field `g` that has a successor opens `"fs[g]"`. */
  lemma QuotedFieldOccurs(fs: seq<string>, g: nat)
    requires 1 <= g && g + 1 < |fs|
    ensures Start(fs, g) >= 1
    ensures OccursAt(Join(fs), "\"" + fs[g] + "\"", Start(fs, g) - 1)
  {
    var T := Join(fs);
    var w := fs[g];
    BetweenQuotes(fs, g);
    var s := Start(fs, g);
    assert T[s - 1..s + |w| + 1] == [T[s - 1]] + T[s..s + |w|] + [T[s + |w|]];
  }

  /**
   A quote followed by a quote-free word `w` occurs at `i` exactly when `i`
   is the separator before a field that starts with `w`.
   */
  lemma QuotePrefixAt(fs: seq<string>, w: string, i: nat)
    requires |fs| > 0 && AllQuoteFree(fs) && QuoteFree(w)
    requires OccursAt(Join(fs), "\"" + w, i)
    ensures var r := Locate(fs, i);
            r.1 == |fs[r.0]| && |w| <= |fs[r.0 + 1]| && fs[r.0 + 1][..|w|] == w
  {
    var T := Join(fs);
    var q := "\"" + w;
    var r := Locate(fs, i);
    var f := r.0;
    assert T[i] == q[0];
    QuoteAt(fs, i);
    StartStep(fs, f);
    assert Start(fs, f + 1) == i + 1;
    assert T[i + 1..i + 1 + |w|] == w by {
      assert T[i..i + |q|] == q;
      assert q[1..1 + |w|] == w;
    }
    WordInField(fs, f + 1, 0, w);
  }

  /** The separator before a field that starts with `w` opens `"w`. */
  lemma QuotePrefixOccurs(fs: seq<string>, g: nat, w: string)
    requires 1 <= g < |fs| && |w| <= |fs[g]| && fs[g][..|w|] == w
    ensures Start(fs, g) >= 1
    ensures OccursAt(Join(fs), "\"" + w, Start(fs, g) - 1)
  {
    var T := Join(fs);
    var q := "\"" + w;
    var i := Start(fs, g) - 1;
    StartStep(fs, g - 1);
    CharAt(fs, g - 1, |fs[g - 1]|);
    forall t | 0 <= t < |q|
      ensures T[i + t] == q[t]
    {
      if t > 0 {
        assert fs[g][t - 1] == w[t - 1];
        CharAt(fs, g, t - 1);
      }
    }
    OccursFromChars(T, q, i);
  }

  /** Two quote-free words read from the same position up to a quote are equal. */
  lemma UpToQuote(s: string, k: int, u: string, w: string)
    requires QuoteFree(u) && QuoteFree(w)
    requires WordUpToQuote(s, k, u) && WordUpToQuote(s, k, w)
    ensures u == w
  {
    assert forall t :: 0 <= t < |w| ==> s[k + t] == w[t];
    assert forall t :: 0 <= t < |u| ==> s[k + t] == u[t];
    var m := if |u| < |w| then |u| else |w|;
    assert s[k + m] == '"';
  }
}
