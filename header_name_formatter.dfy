/**
 * Header-name normalisation to Title-Case: every '-'-separated word gets an
 * upper-case first letter and lower-case rest.
 */
module HeaderNameFormatter {
  import opened Wrappers
  import opened Strings

  /** One word: its first character upper-cased, the rest lower-cased; the empty word stays empty. */
  function TitleWord(w: string): (r: string)
    ensures |r| == |w|
    ensures |w| > 0 ==> r[0] == UpperChar(w[0]) && r[1..] == ToLower(w[1..])
  {
    if |w| == 0 then "" else [UpperChar(w[0])] + ToLower(w[1..])
  }

  /** `TitleWord` on every word, in order. */
  function TitleWords(ws: seq<string>): (r: seq<string>)
    ensures |r| == |ws|
    ensures forall k :: 0 <= k < |r| ==> r[k] == TitleWord(ws[k])
  {
    if |ws| == 0 then [] else [TitleWord(ws[0])] + TitleWords(ws[1..])
  }

  /** `toTitleCase(headerName)`; `None` stands for a null argument. */
  function ToTitleCase(headerName: Option<string>): (r: string)
    ensures headerName.None? ==> r == ""
    ensures headerName.Some? && '-' !in headerName.value ==> r == TitleWord(headerName.value)
  {
    if headerName.None? || headerName.value == "" then ""
    else Join(TitleWords(Split(headerName.value, '-')), '-')
  }

  /** Case mapping never produces or removes a '-'. */
  lemma TitleWordKeepsDashes(w: string)
    ensures ('-' in TitleWord(w)) <==> ('-' in w)
  {
    var r := TitleWord(w);
    forall i | 0 <= i < |w|
      ensures (r[i] == '-') <==> (w[i] == '-')
    {
      if i > 0 {
        assert r[i] == ToLower(w[1..])[i - 1];
      }
    }
    if '-' in w {
      var i :| 0 <= i < |w| && w[i] == '-';
      assert r[i] == '-';
    }
  }

  lemma TitleWordIdempotent(w: string)
    ensures TitleWord(TitleWord(w)) == TitleWord(w)
  {
    var r := TitleWord(w);
    if |w| > 0 {
      assert TitleWord(r)[1..] == ToLower(r[1..]);
      assert ToLower(r[1..]) == r[1..];
    }
  }

  /**
   * For a non-empty name, the words of the result are exactly the title-cased
   * words of the input: each word is converted in place and none is added or lost.
   */
  lemma {:induction false} TitleCaseWords(s: string)
    requires s != ""
    ensures ToTitleCase(Some(s)) == Join(TitleWords(Split(s, '-')), '-')
    ensures TitleWords(Split(s, '-')) != [] ==> Split(ToTitleCase(Some(s)), '-') == TitleWords(Split(s, '-'))
  {
    var ws := Split(s, '-');
    var ts := TitleWords(ws);
    if ts != [] {
      forall k | 0 <= k < |ts|
        ensures '-' !in ts[k]
      {
        TitleWordKeepsDashes(ws[k]);
      }
      assert ts[|ts| - 1] != "" by {
        assert |ts[|ts| - 1]| == |ws[|ws| - 1]|;
        if '-' !in s {
          assert ws == [s];
        }
      }
      SplitJoin(ts, '-');
    }
  }

  /** Normalising an already normalised name changes nothing. */
  lemma TitleCaseIdempotent(s: Option<string>)
    ensures ToTitleCase(Some(ToTitleCase(s))) == ToTitleCase(s)
  {
    if s.Some? && s.value != "" {
      var t := ToTitleCase(s);
      TitleCaseWords(s.value);
      var ts := TitleWords(Split(s.value, '-'));
      if t != "" {
        assert ts != [];
        TitleCaseWords(t);
        forall k | 0 <= k < |ts|
          ensures TitleWords(ts)[k] == ts[k]
        {
          TitleWordIdempotent(Split(s.value, '-')[k]);
        }
        assert TitleWords(ts) == ts;
      }
    }
  }

  /** null and "" both give "". */
  lemma NullOrEmpty()
    ensures ToTitleCase(None) == ""
    ensures ToTitleCase(Some("")) == ""
  {
  }

  /** `TitleWord(w)` is `t` when `t` is `w` with its first character upper-cased and the rest lower-cased. */
  lemma TitleWordIs(w: string, t: string)
    requires |w| == |t| > 0
    requires t[0] == UpperChar(w[0])
    requires forall i :: 1 <= i < |w| ==> t[i] == LowerChar(w[i])
    ensures TitleWord(w) == t
  {
    ToLowerIs(w[1..], t[1..]);
    assert t == [t[0]] + t[1..];
  }

  lemma TitleWordsPair(a: string, b: string)
    ensures TitleWords([a, b]) == [TitleWord(a), TitleWord(b)]
  {
    assert [a, b][1..] == [b];
  }

  lemma SplitContentLength()
    ensures Split("CoNteNT-LeNGTH", '-') == ["CoNteNT", "LeNGTH"]
  {
    JoinStep("CoNteNT", ["LeNGTH"], '-');
    assert ["CoNteNT"] + ["LeNGTH"] == ["CoNteNT", "LeNGTH"];
    assert "CoNteNT" + ['-'] + "LeNGTH" == "CoNteNT-LeNGTH";
    SplitJoin(["CoNteNT", "LeNGTH"], '-');
  }

  lemma TitleContentLengthWords()
    ensures TitleWords(["CoNteNT", "LeNGTH"]) == ["Content", "Length"]
  {
    TitleWordsPair("CoNteNT", "LeNGTH");
    TitleWordIs("CoNteNT", "Content");
    TitleWordIs("LeNGTH", "Length");
  }

  lemma JoinContentLength()
    ensures Join(["Content", "Length"], '-') == "Content-Length"
  {
    JoinStep("Content", ["Length"], '-');
    assert ["Content"] + ["Length"] == ["Content", "Length"];
    assert "Content" + ['-'] + "Length" == "Content-Length";
  }

  /** The result for a non-empty name whose words and their title-cased forms are known. */
  lemma TitleCaseFrom(s: string, ws: seq<string>, ts: seq<string>)
    requires s != "" && Split(s, '-') == ws && TitleWords(ws) == ts
    ensures ToTitleCase(Some(s)) == Join(ts, '-')
  {
  }

  /** "CoNteNT-LeNGTH" becomes "Content-Length". */
  lemma ContentLengthExample()
    ensures ToTitleCase(Some("CoNteNT-LeNGTH")) == "Content-Length"
  {
    SplitContentLength();
    TitleContentLengthWords();
    TitleCaseFrom("CoNteNT-LeNGTH", ["CoNteNT", "LeNGTH"], ["Content", "Length"]);
    JoinContentLength();
  }

  lemma SplitDoubleDash()
    ensures Split("a--b", '-') == ["a", "", "b"]
  {
    JoinStep("", ["b"], '-');
    JoinStep("a", ["", "b"], '-');
    assert [""] + ["b"] == ["", "b"];
    assert ["a"] + ["", "b"] == ["a", "", "b"];
    assert "a" + ['-'] + ("" + ['-'] + "b") == "a--b";
    SplitJoin(["a", "", "b"], '-');
  }

  lemma TitleDoubleDashWords()
    ensures TitleWords(["a", "", "b"]) == ["A", "", "B"]
  {
    assert ["a", "", "b"][1..] == ["", "b"];
    TitleWordsPair("", "b");
    TitleWordIs("a", "A");
    TitleWordIs("b", "B");
  }

  /** An empty word between two dashes is kept: "a--b" becomes "A--B". */
  lemma DoubleDashExample()
    ensures ToTitleCase(Some("a--b")) == "A--B"
  {
    SplitDoubleDash();
    TitleDoubleDashWords();
    TitleCaseFrom("a--b", ["a", "", "b"], ["A", "", "B"]);
    JoinDoubleDash();
  }

  lemma JoinDoubleDash()
    ensures Join(["A", "", "B"], '-') == "A--B"
  {
    JoinStep("", ["B"], '-');
    JoinStep("A", ["", "B"], '-');
    assert [""] + ["B"] == ["", "B"];
    assert ["A"] + ["", "B"] == ["A", "", "B"];
    assert "A" + ['-'] + ("" + ['-'] + "B") == "A--B";
  }

  lemma PiecesTrailingDash(w: string)
    requires '-' !in w
    ensures Pieces(w + "-", '-') == [w, ""]
  {
    IndexOfAfterPrefix(w, '-', "");
    assert w + ['-'] + "" == w + "-";
    PiecesStep(w + "-", '-');
    assert (w + "-")[..|w|] == w;
    assert (w + "-")[|w| + 1..] == "";
  }

  /** A trailing dash leaves only an empty last word, which split drops: "a-" becomes "A". */
  lemma TrailingDashExample()
    ensures ToTitleCase(Some("a-")) == "A"
  {
    PiecesTrailingDash("a");
    assert "a" + "-" == "a-";
    assert ["a", ""][..1] == ["a"];
    assert Split("a-", '-') == ["a"];
    TitleWordIs("a", "A");
    assert TitleWords(["a"]) == ["A"];
  }

  /** A lone dash has only empty words, so the result is "". */
  lemma LoneDashExample()
    ensures ToTitleCase(Some("-")) == ""
  {
    PiecesTrailingDash("");
    assert "" + "-" == "-";
    assert ["", ""][..1] == [""];
    assert [""][..0] == [];
    assert Split("-", '-') == [];
  }
}
