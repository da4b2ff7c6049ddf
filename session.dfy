/** A whole sequential session over a three-group catalog, from a fresh start
    to completion, driven through the selector and the report. */
module Session {
  import opened Text
  import opened Progress
  import opened Selection

  /** Groups `A`, `B` and `C` with one image each. */
  function ThreeGroups(): map<string, seq<string>>
  {
    map["A" := ["A/1.jpg"], "B" := ["B/2.jpg"], "C" := ["C/3.jpg"]]
  }

  /** Start without a report, submit one image of each group, and read the
      report back: three rows in submission order, and the next request
      signals completion whatever the draw. */
  method ThreeGroupSession(draw: nat) returns (history: seq<Row>)
    ensures |history| == 3
    ensures history[0] == Row("anonym", "A", "1.jpg")
    ensures Next(ThreeGroups(), Some(history), Sequential, Some("anonym"), draw) == Completed
  {
    var report := new Report.Open(None);
    AcceptsJoinedName("A", "1.jpg");
    var a := Select(report, "A", "A" + [Slash] + "1.jpg", "anonym");
    AcceptsJoinedName("B", "2.jpg");
    var b := Select(report, "B", "B" + [Slash] + "2.jpg", "anonym");
    AcceptsJoinedName("C", "3.jpg");
    var c := Select(report, "C", "C" + [Slash] + "3.jpg", "anonym");
    history := report.History().value;
    assert history == [a.value, b.value, c.value];
    assert Filter(history, Sequential, Some("anonym")) == history;
    assert "A" in Recorded(history) by { assert history[0] in history; }
    assert "B" in Recorded(history) by { assert history[1] in history; }
    assert "C" in Recorded(history) by { assert history[2] in history; }
    assert ThreeGroups().Keys <= Recorded(history);
  }
}
