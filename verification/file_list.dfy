/**
 * `readFileList`: the manifest file is read with `fs >> s` until extraction
 * fails, so it yields the whitespace-separated tokens of the file in order.
 * The file content is an input: `None` when the file cannot be opened.
 */
module FileList {
  import opened Outcomes

  /** `isspace` in the "C" locale: space, tab, newline, vertical tab, form feed, carriage return. */
  predicate IsSpace(c: char)
  {
    c == ' ' || '\t' <= c <= '\r'
  }

  /** A token as `operator>>` produces it: non-empty and free of whitespace. */
  ghost predicate IsToken(w: string)
  {
    |w| > 0 && forall k :: 0 <= k < |w| ==> !IsSpace(w[k])
  }

  /** The characters of `s` that are not whitespace, in order. */
  function NonSpace(s: string): string
  {
    if |s| == 0 then [] else (if IsSpace(s[0]) then [] else [s[0]]) + NonSpace(s[1..])
  }

  function Concat(ws: seq<string>): string
  {
    if |ws| == 0 then [] else ws[0] + Concat(ws[1..])
  }

  /** Tokens written out with one blank after each, as a manifest would list them. */
  function Join(ws: seq<string>): string
  {
    if |ws| == 0 then [] else ws[0] + [' '] + Join(ws[1..])
  }

  /** Length of the leading run of non-whitespace characters of `s`. */
  function WordLength(s: string): (n: nat)
    ensures n <= |s|
    ensures forall k :: 0 <= k < n ==> !IsSpace(s[k])
    ensures n < |s| ==> IsSpace(s[n])
  {
    if |s| == 0 || IsSpace(s[0]) then 0 else 1 + WordLength(s[1..])
  }

  lemma {:induction false} NonSpaceAppend(a: string, b: string)
    ensures NonSpace(a + b) == NonSpace(a) + NonSpace(b)
  {
    if |a| > 0 {
      assert (a + b)[1..] == a[1..] + b;
      NonSpaceAppend(a[1..], b);
    } else {
      assert a + b == b;
    }
  }

  lemma {:induction false} NonSpaceOfWord(w: string)
    requires forall k :: 0 <= k < |w| ==> !IsSpace(w[k])
    ensures NonSpace(w) == w
  {
    if |w| > 0 {
      NonSpaceOfWord(w[1..]);
    }
  }

  /**
   * Repeated `fs >> s`: skip whitespace, then take the longest run of
   * non-whitespace characters as one token, until the input is exhausted.
   */
  function Tokenize(s: string): (ws: seq<string>)
    ensures forall k :: 0 <= k < |ws| ==> IsToken(ws[k])
    ensures Concat(ws) == NonSpace(s)
    decreases |s|
  {
    if |s| == 0 then []
    else if IsSpace(s[0]) then Tokenize(s[1..])
    else
      var n := WordLength(s);
      assert s == s[..n] + s[n..];
      NonSpaceAppend(s[..n], s[n..]);
      NonSpaceOfWord(s[..n]);
      [s[..n]] + Tokenize(s[n..])
  }

  /** `readFileList`: no tokens when the file cannot be opened. */
  function ReadFileList(file: Option<string>): (names: seq<string>)
    ensures file.None? ==> names == []
    ensures forall k :: 0 <= k < |names| ==> IsToken(names[k])
    ensures file.Some? ==> Concat(names) == NonSpace(file.value)
  {
    match file
    case None => []
    case Some(text) => Tokenize(text)
  }

  lemma {:induction false} WordOfToken(w: string, t: string)
    requires forall k :: 0 <= k < |w| ==> !IsSpace(w[k])
    requires |t| == 0 || IsSpace(t[0])
    ensures WordLength(w + t) == |w|
  {
    if |w| > 0 {
      assert (w + t)[1..] == w[1..] + t;
      WordOfToken(w[1..], t);
    } else {
      assert w + t == t;
    }
  }

  /** A run of whitespace only. */
  ghost predicate Blank(s: string)
  {
    forall k :: 0 <= k < |s| ==> IsSpace(s[k])
  }

  /** Leading whitespace is skipped and yields no token. */
  lemma {:induction false} TokenizeSkipsBlank(sep: string, s: string)
    requires Blank(sep)
    ensures Tokenize(sep + s) == Tokenize(s)
  {
    if |sep| > 0 {
      assert (sep + s)[0] == sep[0];
      assert (sep + s)[1..] == sep[1..] + s;
      TokenizeSkipsBlank(sep[1..], s);
    } else {
      assert sep + s == s;
    }
  }

  /** Text made only of whitespace holds no token. */
  lemma {:induction false} TokenizeBlank(s: string)
    requires Blank(s)
    ensures Tokenize(s) == []
  {
    TokenizeSkipsBlank(s, []);
    assert s + [] == s;
  }

  /**
   * Tokens are maximal: after optional whitespace, a whole run of
   * non-whitespace characters that ends at whitespace or at the end of the
   * text is taken as exactly one token.
   */
  lemma TokenizeTakesWholeRun(sep: string, w: string, rest: string)
    requires Blank(sep) && IsToken(w)
    requires rest == [] || IsSpace(rest[0])
    ensures Tokenize(sep + w + rest) == [w] + Tokenize(rest)
  {
    var t := w + rest;
    assert sep + w + rest == sep + t;
    TokenizeSkipsBlank(sep, t);
    WordOfToken(w, rest);
    assert t[0] == w[0];
    assert t[..|w|] == w;
    assert t[|w|..] == rest;
  }

  /**
   * Tokens laid out with whitespace separators: `seps[k]` follows `ws[k]`.
   * Every separator but the last must be non-empty for the tokens to stay
   * apart; the last one is the optional trailing whitespace.
   */
  function Layout(ws: seq<string>, seps: seq<string>): string
    requires |seps| == |ws|
  {
    if |ws| == 0 then [] else ws[0] + seps[0] + Layout(ws[1..], seps[1..])
  }

  ghost predicate Separators(seps: seq<string>)
  {
    (forall k :: 0 <= k < |seps| ==> Blank(seps[k]))
    && (forall k :: 0 <= k < |seps| - 1 ==> |seps[k]| > 0)
  }

  /**
   * Reading back a manifest with any whitespace between the names (one per
   * line, blanks, tabs), with optional leading and trailing whitespace,
   * recovers exactly the names.
   */
  lemma {:induction false} ReadLayoutRoundTrip(lead: string, ws: seq<string>, seps: seq<string>)
    requires Blank(lead) && |seps| == |ws| && Separators(seps)
    requires forall k :: 0 <= k < |ws| ==> IsToken(ws[k])
    ensures ReadFileList(Some(lead + Layout(ws, seps))) == ws
  {
    TokenizeLayout(lead, ws, seps);
  }

  lemma {:induction false} TokenizeLayout(lead: string, ws: seq<string>, seps: seq<string>)
    requires Blank(lead) && |seps| == |ws| && Separators(seps)
    requires forall k :: 0 <= k < |ws| ==> IsToken(ws[k])
    ensures Tokenize(lead + Layout(ws, seps)) == ws
    decreases |ws|
  {
    if |ws| == 0 {
      TokenizeBlank(lead + []);
      assert lead + [] == lead;
    } else {
      var rest := Layout(ws[1..], seps[1..]);
      var after := seps[0] + rest;
      assert Layout(ws, seps) == ws[0] + after;
      assert lead + Layout(ws, seps) == lead + ws[0] + after;
      if |ws| == 1 {
        assert rest == [];
        assert after == seps[0];
      }
      assert after == [] || IsSpace(after[0]);
      TokenizeTakesWholeRun(lead, ws[0], after);
      assert Separators(seps[1..]) by {
        forall k | 0 <= k < |seps| - 1 ensures Blank(seps[1..][k]) {
          assert seps[1..][k] == seps[k + 1];
        }
      }
      TokenizeLayout(seps[0], ws[1..], seps[1..]);
    }
  }

  /** One blank after each token is the layout whose separators are all " ". */
  lemma {:induction false} JoinIsLayout(ws: seq<string>)
    ensures Join(ws) == Layout(ws, seq(|ws|, _ => " "))
  {
    if |ws| > 0 {
      JoinIsLayout(ws[1..]);
      assert seq(|ws|, _ => " ")[1..] == seq(|ws| - 1, _ => " ");
    }
  }

  lemma BlanksAreSeparators(n: nat)
    ensures Separators(seq(n, _ => " "))
  {
    var seps := seq(n, _ => " ");
    forall k | 0 <= k < n ensures Blank(seps[k]) && |seps[k]| > 0 {
      assert seps[k] == " ";
    }
  }

  /** Reading back a manifest written as blank-separated tokens recovers the tokens. */
  lemma ReadJoinRoundTrip(ws: seq<string>)
    requires forall k :: 0 <= k < |ws| ==> IsToken(ws[k])
    ensures ReadFileList(Some(Join(ws))) == ws
  {
    var seps: seq<string> := seq(|ws|, _ => " ");
    var text := Join(ws);
    JoinIsLayout(ws);
    BlanksAreSeparators(|ws|);
    ReadLayoutRoundTrip([], ws, seps);
    assert [] + Layout(ws, seps) == text;
  }
}
