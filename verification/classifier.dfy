/**
  Sticker colour classification (cube.py, detect_colors_in_grid).

  One averaged HSV sample is compared, in a fixed order, against seven
  inclusive HSV boxes; the first box that contains the sample names the
  colour. The two red boxes cover both ends of OpenCV's 0..180 hue axis and
  both report "red". A sample that no box contains is unknown (`None`).
 */
module Classifier {

  datatype Option<+T> = None | Some(value: T)

  /** One 8-bit channel, as the uint8 cast of the per-cell mean produces it. */
  type Byte = x: int | 0 <= x < 256

  datatype Hsv = Hsv(h: Byte, s: Byte, v: Byte)

  /** A named box of HSV space; both bounds are inclusive on every channel. */
  datatype ColorRange = ColorRange(key: string, lower: Hsv, upper: Hsv)

  /** The threshold table, in the order the classifier tries it. */
  const ColorRanges: seq<ColorRange> := [
    ColorRange("white",  Hsv(0, 0, 180),     Hsv(180, 55, 255)),
    ColorRange("yellow", Hsv(20, 100, 100),  Hsv(30, 255, 255)),
    ColorRange("red1",   Hsv(0, 110, 110),   Hsv(10, 255, 255)),
    ColorRange("red2",   Hsv(160, 110, 110), Hsv(180, 255, 255)),
    ColorRange("orange", Hsv(10, 110, 100),  Hsv(20, 255, 255)),
    ColorRange("green",  Hsv(40, 50, 50),    Hsv(90, 255, 255)),
    ColorRange("blue",   Hsv(100, 100, 50),  Hsv(130, 255, 255))
  ]

  /** Every label the classifier can report. */
  const Labels: set<string> := {"white", "yellow", "red", "orange", "green", "blue"}

  /** `p` lies within `r` on each of the three channels. */
  predicate InRange(p: Hsv, r: ColorRange) {
    && r.lower.h <= p.h <= r.upper.h
    && r.lower.s <= p.s <= r.upper.s
    && r.lower.v <= p.v <= r.upper.v
  }

  /** The label a matching box reports: both red boxes say "red". */
  function LabelOf(key: string): string {
    if key == "red1" || key == "red2" then "red" else key
  }

  /** The position of the first box of `ranges` that contains `p`, if any. */
  function FirstMatch(p: Hsv, ranges: seq<ColorRange>): (r: Option<nat>)
    ensures r.None? <==> forall i :: 0 <= i < |ranges| ==> !InRange(p, ranges[i])
    ensures r.Some? ==> r.value < |ranges| && InRange(p, ranges[r.value])
    ensures r.Some? ==> forall j :: 0 <= j < r.value ==> !InRange(p, ranges[j])
    decreases |ranges|
  {
    if |ranges| == 0 then None
    else if InRange(p, ranges[0]) then Some(0)
    else match FirstMatch(p, ranges[1..])
      case None => None
      case Some(k) => Some(k + 1)
  }

  /**
    The colour of one averaged sample: the label of the first box of the
    table that contains it, or `None` when no box does.
   */
  function Classify(p: Hsv): (r: Option<string>)
    ensures r.Some? ==> r.value in Labels
    ensures r.None? <==> forall i :: 0 <= i < |ColorRanges| ==> !InRange(p, ColorRanges[i])
  {
    match FirstMatch(p, ColorRanges)
    case None => None
    case Some(i) => Some(LabelOf(ColorRanges[i].key))
  }

  /** A reported colour is the label of a box that contains the sample and that no earlier box does. */
  lemma ClassifyIsFirstMatch(p: Hsv)
    requires Classify(p).Some?
    ensures exists i ::
              && 0 <= i < |ColorRanges| && InRange(p, ColorRanges[i])
              && (forall j :: 0 <= j < i ==> !InRange(p, ColorRanges[j]))
              && Classify(p).value == LabelOf(ColorRanges[i].key)
  {
    var i := FirstMatch(p, ColorRanges).value;
    assert InRange(p, ColorRanges[i]);
  }

  /** The keys of the table and the labels they report. */
  lemma TableLabels()
    ensures LabelOf(ColorRanges[0].key) == "white" && LabelOf(ColorRanges[1].key) == "yellow"
    ensures LabelOf(ColorRanges[2].key) == "red" && LabelOf(ColorRanges[3].key) == "red"
    ensures LabelOf(ColorRanges[4].key) == "orange" && LabelOf(ColorRanges[5].key) == "green"
    ensures LabelOf(ColorRanges[6].key) == "blue"
  {
  }

  /**
    The decision region of each label once overlaps are resolved by table
    order, written out channel by channel. These regions are pairwise
    disjoint, which is what the tie-breaking buys.
   */
  predicate InRegion(name: string, p: Hsv) {
    if name == "white" then p.h <= 180 && p.s <= 55 && 180 <= p.v
    else if name == "yellow" then 20 <= p.h <= 30 && 100 <= p.s && 100 <= p.v
    else if name == "red" then (p.h <= 10 || 160 <= p.h <= 180) && 110 <= p.s && 110 <= p.v
    else if name == "orange" then (11 <= p.h <= 19 || (p.h == 10 && p.v < 110)) && 110 <= p.s && 100 <= p.v
    else if name == "green" then 40 <= p.h <= 90 && 50 <= p.s && 50 <= p.v && !(p.s <= 55 && 180 <= p.v)
    else if name == "blue" then 100 <= p.h <= 130 && 100 <= p.s && 50 <= p.v
    else false
  }

  /** Table order spelled out: the first box that contains the sample wins. */
  lemma FirstMatchCascade(p: Hsv)
    ensures FirstMatch(p, ColorRanges) ==
      if InRange(p, ColorRanges[0]) then Some(0)
      else if InRange(p, ColorRanges[1]) then Some(1)
      else if InRange(p, ColorRanges[2]) then Some(2)
      else if InRange(p, ColorRanges[3]) then Some(3)
      else if InRange(p, ColorRanges[4]) then Some(4)
      else if InRange(p, ColorRanges[5]) then Some(5)
      else if InRange(p, ColorRanges[6]) then Some(6)
      else None
  {
    var t := ColorRanges;
    var m := FirstMatch(p, t);
    if m.Some? {
      var i := m.value;
      if i >= 1 { assert !InRange(p, t[0]); }
      if i >= 2 { assert !InRange(p, t[1]); }
      if i >= 3 { assert !InRange(p, t[2]); }
      if i >= 4 { assert !InRange(p, t[3]); }
      if i >= 5 { assert !InRange(p, t[4]); }
      if i >= 6 { assert !InRange(p, t[5]); }
    }
  }

  /** The same, in labels. */
  lemma ClassifyCascade(p: Hsv)
    ensures Classify(p) ==
      if InRange(p, ColorRanges[0]) then Some("white")
      else if InRange(p, ColorRanges[1]) then Some("yellow")
      else if InRange(p, ColorRanges[2]) then Some("red")
      else if InRange(p, ColorRanges[3]) then Some("red")
      else if InRange(p, ColorRanges[4]) then Some("orange")
      else if InRange(p, ColorRanges[5]) then Some("green")
      else if InRange(p, ColorRanges[6]) then Some("blue")
      else None
  {
    FirstMatchCascade(p);
    TableLabels();
  }

  /** A reported colour's decision region contains the sample. */
  lemma ClassifyInRegion(p: Hsv)
    requires Classify(p).Some?
    ensures InRegion(Classify(p).value, p)
  {
    ClassifyCascade(p);
  }

  /** A sample inside a decision region is reported with that region's colour. */
  lemma RegionClassifies(name: string, p: Hsv)
    requires InRegion(name, p)
    ensures Classify(p) == Some(name)
  {
    ClassifyCascade(p);
    if Classify(p).Some? {
      ClassifyInRegion(p);
      RegionsDisjoint(p);
    }
  }

  /** Classification agrees with the closed-form decision regions, in both directions. */
  lemma ClassifyByRegion(p: Hsv)
    ensures forall name :: Classify(p) == Some(name) <==> InRegion(name, p)
    ensures Classify(p).None? <==> forall name :: !InRegion(name, p)
  {
    forall name | InRegion(name, p)
      ensures Classify(p) == Some(name)
    {
      RegionClassifies(name, p);
    }
    if Classify(p).Some? {
      ClassifyInRegion(p);
    }
  }

  /** No sample lies in two decision regions. */
  lemma RegionsDisjoint(p: Hsv)
    ensures forall a, b :: InRegion(a, p) && InRegion(b, p) ==> a == b
  {
  }

  /** Hue 10 lies in both red1 and orange; red1 comes first, so the sample is red. */
  lemma Hue10IsRed(p: Hsv)
    requires p.h == 10 && 110 <= p.s && 110 <= p.v
    ensures InRange(p, ColorRanges[2]) && InRange(p, ColorRanges[4])
    ensures Classify(p) == Some("red")
  {
    ClassifyByRegion(p);
  }

  /** Hue 20 lies in both yellow and orange; yellow comes first, so the sample is yellow. */
  lemma Hue20IsYellow(p: Hsv)
    requires p.h == 20 && 110 <= p.s && 100 <= p.v
    ensures InRange(p, ColorRanges[1]) && InRange(p, ColorRanges[4])
    ensures Classify(p) == Some("yellow")
  {
    ClassifyByRegion(p);
  }

  /** Red is found at both ends of the hue axis. */
  lemma RedAtBothEnds(p: Hsv)
    requires p.h <= 10 || 160 <= p.h <= 180
    requires 110 <= p.s && 110 <= p.v
    ensures Classify(p) == Some("red")
  {
    ClassifyByRegion(p);
  }

  /** Black is outside every box. */
  lemma BlackIsUnknown()
    ensures Classify(Hsv(0, 0, 0)) == None
  {
    ClassifyByRegion(Hsv(0, 0, 0));
  }
}
