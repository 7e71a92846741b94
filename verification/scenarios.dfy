/** Worked examples: URL normalisation of bare, `http`, look-alike and
    upper-case inputs, tag parsing with padding and an empty piece, the "mdn"
    search over the seed list, and unparseable stored text. */
module Scenarios {
  import opened Wrappers
  import opened Strings
  import opened Bookmarks
  import opened Controller

  /** A bare host gets the secure scheme. */
  lemma NormalizeBareHost()
    ensures NormalizeUrl("example.com") == "https://example.com"
  {
    assert !HasHttpPrefix("example.com") by {
      assert "example.com"[0] != "http"[0];
    }
  }

  /** An "http" URL is kept as it is. */
  lemma NormalizeHttpUrl()
    ensures NormalizeUrl("http://example.com") == "http://example.com"
  {
  }

  /** The prefix test is not a scheme check: a host that happens to start with
      "http" keeps no scheme. */
  lemma NormalizeHttpLookalike()
    ensures NormalizeUrl("httpbin.org") == "httpbin.org"
  {
    assert HasHttpPrefix("httpbin.org") by {
      assert "httpbin.org"[..4] == "http";
    }
  }

  /** The prefix test is case-sensitive: an upper-case scheme gets a second one. */
  lemma NormalizeUpperCaseScheme()
    ensures NormalizeUrl("HTTP://example.com") == "https://HTTP://example.com"
  {
    assert !HasHttpPrefix("HTTP://example.com") by {
      assert "HTTP://example.com"[0] != "http"[0];
    }
  }

  lemma TrimDev()
    ensures Trim("dev") == "dev"
  {
    TrimUnique("", "dev", "");
    assert "" + "dev" + "" == "dev";
  }

  lemma TrimDocs()
    ensures Trim(" docs ") == "docs"
  {
    var w, m := " ", "docs";
    assert AllWhitespace(w) && Trimmed(m);
    assert w + m + w == " docs ";
    TrimUnique(w, m, w);
  }

  lemma TrimQa()
    ensures Trim("  qa") == "qa"
  {
    TrimUnique("  ", "qa", "");
    assert "  " + "qa" + "" == "  qa";
  }

  lemma SplitExample()
    ensures Split("dev, docs ,  qa", ',') == ["dev", " docs ", "  qa"]
  {
    var pieces := ["dev", " docs ", "  qa"];
    SplitJoin(pieces, ',');
    assert Join(pieces, ',') == "dev, docs ,  qa";
  }

  /** Pieces are trimmed and kept in order. */
  lemma ParseTagsTrims()
    ensures ParseTags("dev, docs ,  qa") == ["dev", "docs", "qa"]
  {
    SplitExample();
    TrimDev();
    TrimDocs();
    TrimQa();
  }

  /** Empty pieces are kept as empty tags: "a,,b" gives "a", "" and "b". */
  lemma ParseTagsKeepsEmpty(a: char, b: char)
    requires !IsWhitespace(a) && !IsWhitespace(b) && a != ',' && b != ','
    ensures ParseTags([a, ',', ',', b]) == [[a], "", [b]]
  {
    SplitEmptyPiece(a, b);
    TrimSingle(a);
    TrimSingle(b);
    TrimUnique("", "", "");
  }

  lemma SplitEmptyPiece(a: char, b: char)
    requires a != ',' && b != ','
    ensures Split([a, ',', ',', b], ',') == [[a], "", [b]]
  {
    var pieces := [[a], "", [b]];
    SplitJoin(pieces, ',');
    assert pieces[1..] == ["", [b]] && pieces[1..][1..] == [[b]];
    assert Join(["", [b]], ',') == [',', b];
    assert Join(pieces, ',') == [a, ',', ',', b];
  }

  lemma TrimSingle(c: char)
    requires !IsWhitespace(c)
    ensures Trim([c]) == [c]
  {
    TrimUnique("", [c], "");
    assert "" + [c] + "" == [c];
  }

  /** Lowering cannot produce a 'd' from a string without 'd' or 'D'. */
  lemma LowerLacksD(s: string)
    requires 'd' !in s && 'D' !in s
    ensures 'd' !in Lower(s)
  {
  }

  lemma MdnMatchesFirstSeed(id1: string, id2: string)
    ensures Matches(Seed(id1, id2)[0], "mdn")
  {
    var title := Seed(id1, id2)[0].title;
    assert Lower(title)[..3] == "mdn";
    assert "mdn" <= Lower(title)[0..];
  }

  lemma MdnMissesSecondSeed(id1: string, id2: string)
    ensures !Matches(Seed(id1, id2)[1], "mdn")
  {
    var b := Seed(id1, id2)[1];
    LowerLacksD(b.title);
    MissingCharNotSubstring("mdn", Lower(b.title), 1);
    LowerLacksD(UrlOf(b));
    MissingCharNotSubstring("mdn", Lower(UrlOf(b)), 1);
    forall t | t in TagsOf(b) ensures !IsSubstring("mdn", Lower(t)) {
      LowerLacksD(t);
      MissingCharNotSubstring("mdn", Lower(t), 1);
    }
  }

  /** Searching the seed list for "mdn" finds the MDN entry (its title matches
      after lowering) and not the other one. */
  lemma SearchSeedForMdn(id1: string, id2: string)
    ensures Filtered(Seed(id1, id2), "mdn") == [Seed(id1, id2)[0]]
  {
    var seed := Seed(id1, id2);
    LowerKeepsLowercase("mdn");
    MdnMatchesFirstSeed(id1, id2);
    MdnMissesSecondSeed(id1, id2);
    var r := Filtered(seed, "mdn");
    assert seed[0] in r && seed[1] !in r;
  }

  /** Unparseable stored text falls back to the two seed entries. */
  lemma CorruptStorageGivesSeed(raw: string, parse: string -> Option<seq<Bookmark>>, id1: string, id2: string)
    requires raw != "" && parse(raw) == None
    ensures |Initial(Holds(raw), parse, id1, id2)| == 2
    ensures Initial(Holds(raw), parse, id1, id2)[0].title == "MDN Web Docs"
    ensures Initial(Holds(raw), parse, id1, id2)[1].title == "Stack Overflow"
  {
  }
}
