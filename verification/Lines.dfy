/** Records as the generator lays them out: tags separated by a semicolon and one blank. */
module Lines {
  import opened Wrappers
  import opened Text
  import opened Tags
  import opened TagGrammar

  function Line(tags: seq<Pair>): string {
    if tags == [] then "" else
    var n := |tags| - 1;
    var last := tags[n].0 + "=" + tags[n].1;
    if n == 0 then last else Line(tags[..n]) + "; " + last
  }

  function Laid(tags: seq<Pair>): (segs: seq<Segment>)
    ensures |segs| == |tags|
  {
    if tags == [] then [] else
    var n := |tags| - 1;
    Laid(tags[..n]) + [Tag(if n == 0 then "" else " ", tags[n].0, "", "", tags[n].1, "")]
  }

  lemma LineSnoc(tags: seq<Pair>, k: string, v: string)
    ensures tags != [] ==> Line(tags + [(k, v)]) == Line(tags) + "; " + (k + "=" + v)
    ensures tags == [] ==> Line(tags + [(k, v)]) == k + "=" + v
    ensures Laid(tags + [(k, v)]) == Laid(tags) + [Tag(if tags == [] then "" else " ", k, "", "", v, "")]
  {
    var longer := tags + [(k, v)];
    assert longer[..|longer| - 1] == tags;
  }

  lemma UnsnocTags(tags: seq<Pair>) returns (init: seq<Pair>, k: string, v: string)
    requires tags != []
    ensures tags == init + [(k, v)]
  {
    var n := |tags| - 1;
    init, k, v := tags[..n], tags[n].0, tags[n].1;
  }

  lemma TagText(w: string, k: string, v: string)
    ensures Tag(w, k, "", "", v, "").Text() == w + (k + "=" + v)
  {
  }

  lemma TagsInSnoc(segs: seq<Segment>, s: Segment)
    ensures TagsIn(segs + [s]) == if s.Tag? then TagsIn(segs) + [(s.name, s.value)] else TagsIn(segs)
  {
    var longer := segs + [s];
    assert longer[..|longer| - 1] == segs;
  }

  lemma {:induction false} LaidOut(tags: seq<Pair>)
    ensures TagsIn(Laid(tags)) == tags
    ensures tags != [] ==> Join(Texts(Laid(tags)), ";") == Line(tags)
    decreases |tags|
  {
    if tags != [] {
      var init, k, v := UnsnocTags(tags);
      LaidOut(init);
      LineSnoc(init, k, v);
      var s := Tag(if init == [] then "" else " ", k, "", "", v, "");
      TagsInSnoc(Laid(init), s);
      TextsSnoc(Laid(init), s);
      TagText(s.w1, k, v);
      if init != [] {
        JoinConcat(Texts(Laid(init)), [s.Text()], ";");
        assert Line(init) + ";" + (" " + (k + "=" + v)) == Line(init) + "; " + (k + "=" + v);
      } else {
        assert Texts(Laid(init)) + [s.Text()] == [s.Text()];
        assert "" + (k + "=" + v) == k + "=" + v;
      }
    }
  }

  lemma {:induction false} LaidWellFormed(tags: seq<Pair>)
    requires CleanTags(tags)
    ensures forall s | s in Laid(tags) :: s.WellFormed()
    decreases |tags|
  {
    if tags != [] {
      var init, k, v := UnsnocTags(tags);
      assert (k, v) in tags && forall kv | kv in init :: kv in tags;
      LaidWellFormed(init);
      LineSnoc(init, k, v);
    }
  }

  /** A line of clean tags is read as exactly those tags, or refused for the order or the repetition of names. */
  lemma LineReads(tags: seq<Pair>)
    requires tags != [] && CleanTags(tags)
    ensures TagsOf(Line(tags)) == Admit(tags)
    ensures Admissible(tags) ==> TagsOf(Line(tags)) == Ok(tags)
  {
    LaidOut(tags);
    LaidWellFormed(tags);
    RenderingReads(Laid(tags));
    AdmitIffAdmissible(tags);
  }

  /** A line with an unprintable octet in a value is refused. */
  lemma {:induction false} LineOctets(tags: seq<Pair>, k: string, v: string)
    requires (k, v) in tags && !Octets(v)
    ensures !Octets(Line(tags))
    decreases |tags|
  {
    var init, a, b := UnsnocTags(tags);
    LineSnoc(init, a, b);
    OctetsConcat(a + "=", b);
    if (a, b) != (k, v) {
      LineOctets(init, k, v);
    }
    if init != [] {
      OctetsConcat(Line(init) + "; ", a + "=" + b);
      OctetsConcat(Line(init), "; ");
    }
  }
}
