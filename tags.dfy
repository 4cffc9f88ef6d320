/**
 * The tag string of a new article, "tag1,tag2": split on commas, each
 * piece stripped of whitespace, blank pieces dropped, order and duplicates
 * kept; an absent or empty string gives no tags.
 */
module Tags {
  import opened Optional
  import opened Text

  /** Python truthiness of an optional string field: present and non-empty. */
  predicate Given(o: Option<string>) { o.Some? && o.value != "" }

  /** A tag as the parser can produce it: non-empty, no surrounding whitespace, no comma. */
  predicate CleanTag(t: string) {
    t != [] && !IsSpace(t[0]) && !IsSpace(t[|t| - 1]) && ',' !in t
  }

  /** Each piece with its surrounding whitespace stripped, leaving out the pieces that strip to nothing. */
  function KeepNonBlank(pieces: seq<string>): (tags: seq<string>)
    requires forall k | 0 <= k < |pieces| :: ',' !in pieces[k]
    ensures |tags| <= |pieces|
    ensures forall k | 0 <= k < |tags| :: CleanTag(tags[k])
    ensures tags == [] <==> forall k | 0 <= k < |pieces| :: AllSpace(pieces[k])
  {
    if pieces == [] then []
    else
      assert forall k | 0 <= k < |pieces| - 1 :: pieces[1..][k] == pieces[k + 1];
      var rest := KeepNonBlank(pieces[1..]);
      var t := Strip(pieces[0]);
      if t == [] then rest
      else
        StrippedPieceClean(pieces[0]);
        ConsClean(t, rest);
        [t] + rest
  }

  lemma ConsClean(t: string, rest: seq<string>)
    requires CleanTag(t) && forall k | 0 <= k < |rest| :: CleanTag(rest[k])
    ensures forall k | 0 <= k < |rest| + 1 :: CleanTag(([t] + rest)[k])
  {
  }

  /** Stripping a comma-free piece that is not blank leaves a clean tag. */
  lemma StrippedPieceClean(p: string)
    requires ',' !in p && Strip(p) != []
    ensures CleanTag(Strip(p))
  {
    var i := LeadingSpace(p);
    SliceAvoids(p, i, i + |Strip(p)|, ',');
  }

  lemma SliceAvoids(s: string, i: nat, j: nat, c: char)
    requires i <= j <= |s| && c !in s
    ensures c !in s[i..j]
  {
    forall k | 0 <= k < j - i ensures s[i..j][k] != c {
      assert s[i..j][k] == s[i + k];
    }
  }

  /** The tags stored for the request's `tags` field. */
  function ParseTags(raw: Option<string>): (tags: seq<string>)
    ensures !Given(raw) ==> tags == []
    ensures forall k | 0 <= k < |tags| :: CleanTag(tags[k])
  {
    if Given(raw) then KeepNonBlank(Split(raw.value, ',')) else []
  }

  /** A clean tag is its own stripped form. */
  lemma StripClean(t: string)
    requires CleanTag(t)
    ensures Strip(t) == t
  {
    assert TrimStart(t) == t;
  }

  lemma {:induction false} KeepNonBlankClean(tags: seq<string>)
    requires forall k | 0 <= k < |tags| :: CleanTag(tags[k]) && ',' !in tags[k]
    ensures KeepNonBlank(tags) == tags
  {
    if tags != [] {
      StripClean(tags[0]);
      KeepNonBlankClean(tags[1..]);
    }
  }

  /** Writing clean tags as "t1,t2,..." and parsing gives them back, in order and with duplicates. */
  lemma ParseJoinedTags(tags: seq<string>)
    requires |tags| >= 1
    requires forall k | 0 <= k < |tags| :: CleanTag(tags[k])
    ensures ParseTags(Some(Join(tags, ','))) == tags
  {
    var s := Join(tags, ',');
    assert s != "" by {
      JoinStartsWith(tags, ',');
    }
    SplitJoin(tags, ',');
    KeepNonBlankClean(tags);
    assert ParseTags(Some(s)) == KeepNonBlank(Split(s, ','));
  }

  lemma JoinStartsWith(parts: seq<string>, sep: char)
    requires |parts| >= 1
    ensures parts[0] <= Join(parts, sep)
  {
  }

  /**
   * One piece of a tag string as a client may write it: a tag, possibly
   * empty, with whitespace before and after it.
   */
  datatype Spelling = Spelling(before: string, tag: string, after: string)

  predicate WellSpelled(sp: Spelling) {
    AllSpace(sp.before) && AllSpace(sp.after) && (sp.tag == [] || CleanTag(sp.tag))
  }

  function Piece(sp: Spelling): string { sp.before + sp.tag + sp.after }

  function Pieces(sps: seq<Spelling>): (ps: seq<string>)
    ensures |ps| == |sps| && forall k | 0 <= k < |sps| :: ps[k] == Piece(sps[k])
  {
    if sps == [] then [] else [Piece(sps[0])] + Pieces(sps[1..])
  }

  /** The non-empty strings of `ts`, in order. */
  function NonEmpty(ts: seq<string>): (r: seq<string>)
    ensures |r| <= |ts|
  {
    if ts == [] then [] else if ts[0] == [] then NonEmpty(ts[1..]) else [ts[0]] + NonEmpty(ts[1..])
  }

  function TagsOf(sps: seq<Spelling>): (ts: seq<string>)
    ensures |ts| == |sps| && forall k | 0 <= k < |sps| :: ts[k] == sps[k].tag
  {
    if sps == [] then [] else [sps[0].tag] + TagsOf(sps[1..])
  }

  /**
   * Whatever whitespace surrounds the tags and wherever blank pieces stand,
   * the parser returns exactly the written tags, in order and with duplicates.
   */
  lemma ParseSpelledTags(sps: seq<Spelling>)
    requires |sps| >= 1 && forall k | 0 <= k < |sps| :: WellSpelled(sps[k])
    ensures ParseTags(Some(Join(Pieces(sps), ','))) == NonEmpty(TagsOf(sps))
  {
    var ps := Pieces(sps);
    forall k | 0 <= k < |ps| ensures ',' !in ps[k] {
      PieceCommaFree(sps[k]);
    }
    SplitJoin(ps, ',');
    KeepNonBlankSpelled(sps);
    if Join(ps, ',') == "" {
      JoinEmpty(ps, ',');
      assert sps[0].tag == [] && sps[1..] == [];
    }
  }

  lemma PieceCommaFree(sp: Spelling)
    requires WellSpelled(sp)
    ensures ',' !in Piece(sp)
  {
  }

  lemma JoinEmpty(parts: seq<string>, sep: char)
    requires |parts| >= 1 && Join(parts, sep) == ""
    ensures |parts| == 1 && parts[0] == ""
  {
  }

  lemma {:induction false} KeepNonBlankSpelled(sps: seq<Spelling>)
    requires forall k | 0 <= k < |sps| :: WellSpelled(sps[k])
    requires forall k | 0 <= k < |Pieces(sps)| :: ',' !in Pieces(sps)[k]
    ensures KeepNonBlank(Pieces(sps)) == NonEmpty(TagsOf(sps))
  {
    if sps != [] {
      var ps := Pieces(sps);
      assert ps[1..] == Pieces(sps[1..]);
      assert TagsOf(sps)[1..] == TagsOf(sps[1..]);
      KeepNonBlankSpelled(sps[1..]);
      StripSpelled(sps[0]);
    }
  }

  /** Stripping a spelled piece recovers its tag. */
  lemma StripSpelled(sp: Spelling)
    requires WellSpelled(sp)
    ensures Strip(Piece(sp)) == sp.tag
  {
    var s := Piece(sp);
    if sp.tag == [] {
      assert s == sp.before + sp.after;
      AllSpaceJoin(s, |sp.before|);
    } else {
      assert s == sp.before + (sp.tag + sp.after);
      TrimStartSpaces(sp.before, sp.tag + sp.after);
      TrimEndSpaces(sp.tag, sp.after);
    }
  }

  lemma {:induction false} TrimStartSpaces(w: string, x: string)
    requires AllSpace(w) && x != [] && !IsSpace(x[0])
    ensures TrimStart(w + x) == x
  {
    if w != [] {
      assert (w + x)[1..] == w[1..] + x;
      TrimStartSpaces(w[1..], x);
    } else {
      assert w + x == x;
    }
  }

  lemma {:induction false} TrimEndSpaces(x: string, w: string)
    requires AllSpace(w) && x != [] && !IsSpace(x[|x| - 1])
    ensures TrimEnd(x + w) == x
  {
    if w != [] {
      assert (x + w)[..|x + w| - 1] == x + w[..|w| - 1];
      TrimEndSpaces(x, w[..|w| - 1]);
    } else {
      assert x + w == x;
    }
  }

  /** The service's example request: "python,flask" becomes ["python", "flask"]. */
  lemma ParseTagsExample()
    ensures ParseTags(Some("python,flask")) == ["python", "flask"]
  {
    assert Join(["python", "flask"], ',') == "python,flask";
    ParseJoinedTags(["python", "flask"]);
  }

  /** Blank pieces are dropped and whitespace is trimmed. */
  lemma ParseTagsDropsBlank()
    ensures ParseTags(Some(" a ,, ")) == ["a"]
  {
    SplitExample();
    KeepNonBlankExample();
  }

  lemma KeepNonBlankExample()
    ensures KeepNonBlank([" a ", "", " "]) == ["a"]
  {
    var pieces := [" a ", "", " "];
    assert pieces[1..] == ["", " "] && pieces[1..][1..] == [" "] && [" "][1..] == [];
    assert AllSpace(" ");
    assert Strip("") == [] && Strip(" ") == [];
    assert KeepNonBlank([" "]) == [];
    assert KeepNonBlank(["", " "]) == [];
    StripExample();
  }

  lemma StripExample()
    ensures Strip(" a ") == "a"
  {
    assert " a "[1..] == "a " && !IsSpace('a') && IsSpace(' ');
    assert TrimStart("a ") == "a ";
    assert TrimStart(" a ") == "a ";
    assert "a "[..1] == "a";
    assert TrimEnd("a") == "a";
    assert TrimEnd("a ") == "a";
  }

  lemma SplitExample()
    ensures Split(" a ,, ", ',') == [" a ", "", " "]
  {
    var s := " a ,, ";
    assert IndexOf(s, ',') == 3;
    assert s[..3] == " a " && s[4..] == ", " && IndexOf(", ", ',') == 0 && ", "[1..] == " " && ", "[..0] == "";
    assert IndexOf(" ", ',') == 1;
    assert Split(" ", ',') == [" "];
    assert Split(", ", ',') == [""] + Split(" ", ',');
    assert Split(s, ',') == [" a "] + Split(", ", ',');
  }
}
