/** The string-level helpers around the crawl: `get_links`' anchor filter, the
    codes `get_course` and `get_subject` cut out of a page's file name, and the
    year range `main` accepts. */
module Links {
  import opened Wrappers
  import opened Text

  /** An `<a>` element, reduced to its `href` attribute if it has one. */
  datatype Anchor = Anchor(href: Option<string>)

  /** The test `get_links` applies: an `href` that mentions `.html` and not `Search`. */
  predicate Followed(a: Anchor)
  {
    a.href.Some? && Contains(a.href.value, ".html") && !Contains(a.href.value, "Search")
  }

  /** An anchor is followed exactly when it has an `href` in which `.html` occurs
      at some index and `Search` occurs at none. */
  lemma FollowedIffOccurs(a: Anchor)
    ensures Followed(a) <==>
      && a.href.Some?
      && (exists i: nat :: OccursAt(a.href.value, ".html", i))
      && !(exists i: nat :: OccursAt(a.href.value, "Search", i))
  {
    if a.href.Some? {
      ContainsIffOccurs(a.href.value, ".html");
      ContainsIffOccurs(a.href.value, "Search");
    }
  }

  /** The links `get_links` returns: each followed anchor's `href` joined to the prefix,
      in document order. */
  function FollowedLinks(anchors: seq<Anchor>, prefix: string): seq<string>
  {
    if anchors == [] then []
    else
      (if Followed(anchors[0]) then [PathJoin(prefix, anchors[0].href.value)] else [])
      + FollowedLinks(anchors[1..], prefix)
  }

  /** `get_links`. */
  method GetLinks(anchors: seq<Anchor>, prefix: string) returns (links: seq<string>)
    ensures links == FollowedLinks(anchors, prefix)
  {
    links := [];
    for i := 0 to |anchors|
      invariant links + FollowedLinks(anchors[i..], prefix) == FollowedLinks(anchors, prefix)
    {
      assert anchors[i..][0] == anchors[i] && anchors[i..][1..] == anchors[i + 1..];
      if Followed(anchors[i]) {
        links := links + [PathJoin(prefix, anchors[i].href.value)];
      }
    }
    assert anchors[|anchors|..] == [];
  }

  /** A link is returned exactly when some followed anchor yields it; there are
      never more links than anchors. */
  lemma {:induction false} FollowedLinksExact(anchors: seq<Anchor>, prefix: string)
    ensures |FollowedLinks(anchors, prefix)| <= |anchors|
    ensures forall x :: x in FollowedLinks(anchors, prefix) <==>
      exists i :: 0 <= i < |anchors| && Followed(anchors[i]) && x == PathJoin(prefix, anchors[i].href.value)
  {
    if anchors != [] {
      FollowedLinksExact(anchors[1..], prefix);
      forall x ensures x in FollowedLinks(anchors, prefix) <==>
        exists i :: 0 <= i < |anchors| && Followed(anchors[i]) && x == PathJoin(prefix, anchors[i].href.value)
      {
        if x in FollowedLinks(anchors[1..], prefix) {
          var i :| 0 <= i < |anchors[1..]| && Followed(anchors[1..][i])
            && x == PathJoin(prefix, anchors[1..][i].href.value);
          assert anchors[1..][i] == anchors[i + 1];
        }
        if exists i :: 0 <= i < |anchors| && Followed(anchors[i]) && x == PathJoin(prefix, anchors[i].href.value) {
          var i :| 0 <= i < |anchors| && Followed(anchors[i]) && x == PathJoin(prefix, anchors[i].href.value);
          if i > 0 {
            assert anchors[1..][i - 1] == anchors[i];
          }
        }
      }
    }
  }

  /** Document order: the links of two runs of anchors are the first run's, then the second's. */
  lemma {:induction false} FollowedLinksAppend(a: seq<Anchor>, b: seq<Anchor>, prefix: string)
    ensures FollowedLinks(a + b, prefix) == FollowedLinks(a, prefix) + FollowedLinks(b, prefix)
  {
    if a == [] {
      assert a + b == b;
    } else {
      assert (a + b)[0] == a[0] && (a + b)[1..] == a[1..] + b;
      FollowedLinksAppend(a[1..], b, prefix);
    }
  }

  // ---------------------------------------------------------------------------
  // Codes cut out of a file name
  // ---------------------------------------------------------------------------

  /** `os.path.basename(course_link)[:-5]`: the file name without its last five
      characters (`.html`). */
  function CourseCode(link: string): (r: string)
    ensures var name := Basename(link);
      && (|name| >= 5 ==> r + name[|name| - 5..] == name)
      && (|name| < 5 ==> r == [])
  {
    Slice(Basename(link), 0, -5)
  }

  /** `os.path.basename(subject_link)[0:4]`. */
  function SubjectCode(link: string): (r: string)
    ensures var name := Basename(link);
      r <= name && |r| == (if |name| < 4 then |name| else 4)
  {
    Slice(Basename(link), 0, 4)
  }

  /** `os.path.basename(subject_link)[4:8]`. */
  function CampusCode(link: string): (r: string)
    ensures var name := Basename(link);
      && (|name| <= 4 ==> r == [])
      && (4 < |name| ==> r == name[4..if |name| < 8 then |name| else 8])
  {
    Slice(Basename(link), 4, 8)
  }

  /** A course page named `<code>.html` gives back `code`, wherever it lives. */
  lemma CourseCodeOfPage(dir: string, code: string)
    requires '/' !in code
    ensures CourseCode(dir + "/" + code + ".html") == code
  {
    var name := code + ".html";
    assert dir + "/" + code + ".html" == (dir + "/") + name;
    BasenameAfterSlash(dir + "/", name);
    assert '/' !in name by {
      assert forall i :: 0 <= i < |name| ==> name[i] == (if i < |code| then code[i] else ".html"[i - |code|]);
    }
    BasenameOfSlashFree(name);
    assert name[..|name| - 5] == code;
  }

  /** A name without '/' is its own base name. */
  lemma {:induction false} BasenameOfSlashFree(name: string)
    requires '/' !in name
    ensures Basename(name) == name
  {
    if name != [] {
      assert '/' !in name[..|name| - 1] by {
        assert forall i :: 0 <= i < |name| - 1 ==> name[..|name| - 1][i] == name[i];
      }
      BasenameOfSlashFree(name[..|name| - 1]);
      assert name[..|name| - 1] + [name[|name| - 1]] == name;
    }
  }

  /** The course code of a joined link is the course code of its `href`. */
  lemma CourseCodeOfJoin(prefix: string, href: string)
    ensures CourseCode(PathJoin(prefix, href)) == CourseCode(href)
  {
    BasenameOfJoin(prefix, href);
  }

  /** A subject page named `<subject><campus>.html` with four-character codes gives
      back both codes; in general the two codes are the first eight characters of the
      file name, split after the fourth. */
  lemma SubjectAndCampusCodes(link: string)
    ensures var name := Basename(link);
      && |SubjectCode(link)| == (if |name| < 4 then |name| else 4)
      && SubjectCode(link) + CampusCode(link) == name[..if |name| < 8 then |name| else 8]
  {
    var name := Basename(link);
    if |name| <= 4 {
      assert SubjectCode(link) == name[..|name|];
    }
  }

  /** `COMPKENS.html` in any directory is subject `COMP` on campus `KENS`. */
  lemma SubjectPageExample(dir: string)
    ensures SubjectCode(dir + "/COMPKENS.html") == "COMP"
    ensures CampusCode(dir + "/COMPKENS.html") == "KENS"
  {
    var name := "COMPKENS.html";
    assert dir + "/COMPKENS.html" == (dir + "/") + name;
    BasenameAfterSlash(dir + "/", name);
    assert forall i :: 0 <= i < |name| ==> name[i] != '/';
    BasenameOfSlashFree(name);
    assert Slice(name, 0, 4) == name[0..4] == "COMP";
    assert Slice(name, 4, 8) == name[4..8] == "KENS";
  }

  // ---------------------------------------------------------------------------
  // Year range
  // ---------------------------------------------------------------------------

  const MinYear := 2008

  /** `main`'s assertion on the requested year; the current calendar year is a
      parameter. */
  function CheckYear(year: int, currentYear: int): (r: Result<int>)
    ensures r.Ok? <==> MinYear <= year <= currentYear
    ensures r.Ok? ==> r.value == year
  {
    if MinYear <= year <= currentYear then Ok(year) else Err(AssertionError("year outside [2008, current year]"))
  }
}
