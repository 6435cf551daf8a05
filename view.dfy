/** The widget's two views, the row view and the fastfetch view, and the
    button that switches between them. */
module View {

  const Rows := "rows"
  const Fastfetch := "fastfetch"

  /** The state the toggle button reads and writes: the view the widget
      thinks it shows, the button's label, the stack page on screen, and how
      often the fastfetch output has been (re)loaded. */
  datatype ViewState = ViewState(current: string, buttonLabel: string, visible: string, loads: nat)

  /** The label of the button while `view` is shown: it offers the other
      view. */
  function LabelFor(view: string): (r: string)
    ensures view == Rows <==> r == "Fastfetch View"
    ensures view != Rows <==> r == "Row View"
  {
    if view == Rows then "Fastfetch View" else "Row View"
  }

  /** The state just after construction: the row view, offering the
      fastfetch view, nothing loaded yet. */
  const Initial := ViewState(Rows, LabelFor(Rows), Rows, 0)

  /** The page on screen is the one the widget records, it is one of the two
      pages, and the label matches it. */
  predicate Consistent(s: ViewState) {
    (s.current == Rows || s.current == Fastfetch) &&
    s.visible == s.current && s.buttonLabel == LabelFor(s.current)
  }

  /** What one click on the toggle button does: from the row view it shows
      the fastfetch view and loads its output; from any other view it goes
      back to the rows. */
  function Click(s: ViewState): (r: ViewState)
    ensures Consistent(r)
    ensures s.current == Rows ==> r.current == Fastfetch && r.loads == s.loads + 1
    ensures s.current != Rows ==> r.current == Rows && r.loads == s.loads
  {
    if s.current == Rows then ViewState(Fastfetch, LabelFor(Fastfetch), Fastfetch, s.loads + 1)
    else ViewState(Rows, LabelFor(Rows), Rows, s.loads)
  }

  lemma InitialConsistent()
    ensures Consistent(Initial) && Initial.buttonLabel == "Fastfetch View"
  {
  }

  /** Two clicks bring a consistent widget back to the view it showed, with
      the fastfetch output loaded exactly once more. */
  lemma ClickTwice(s: ViewState)
    requires Consistent(s)
    ensures Click(Click(s)) == s.(loads := s.loads + 1)
  {
  }

  /** The fastfetch output is loaded by a click exactly when the click
      leaves the row view. */
  lemma ClickLoads(s: ViewState)
    ensures Click(s).loads != s.loads <==> s.current == Rows
  {
  }

  /** In a consistent state the label always names the view not shown. */
  lemma LabelNamesOtherView(s: ViewState)
    requires Consistent(s)
    ensures s.buttonLabel == "Fastfetch View" <==> s.visible == Rows
    ensures s.buttonLabel == "Row View" <==> s.visible == Fastfetch
  {
  }

  /** The state after n clicks in a row. */
  function Clicks(s: ViewState, n: nat): ViewState {
    if n == 0 then s else Click(Clicks(s, n - 1))
  }

  /** After n clicks from the start the row view is shown exactly when n is
      even, and the output has been loaded once per two clicks, rounded up. */
  lemma {:induction false} ClicksFromStart(n: nat)
    ensures Consistent(Clicks(Initial, n))
    ensures Clicks(Initial, n).current == (if n % 2 == 0 then Rows else Fastfetch)
    ensures Clicks(Initial, n).loads == (n + 1) / 2
  {
    if n > 0 {
      ClicksFromStart(n - 1);
    }
  }

  /** The widget object: the fields `on_view_toggle_clicked` updates. */
  class SysInfoView {
    var currentView: string
    var toggleLabel: string
    var visibleChild: string
    var fastfetchLoads: nat

    function State(): ViewState
      reads this
    {
      ViewState(currentView, toggleLabel, visibleChild, fastfetchLoads)
    }

    predicate Valid()
      reads this
    {
      Consistent(State())
    }

    /** The widget starts on the row view with the button offering the
        fastfetch view. */
    constructor ()
      ensures Valid()
      ensures State() == Initial
    {
      currentView := Rows;
      toggleLabel := "Fastfetch View";
      visibleChild := Rows;
      fastfetchLoads := 0;
    }

    /** `on_view_toggle_clicked`. */
    method ToggleClicked()
      modifies this
      ensures State() == Click(old(State()))
      ensures Valid()
    {
      if currentView == Rows {
        currentView := Fastfetch;
        toggleLabel := "Row View";
        visibleChild := Fastfetch;
        fastfetchLoads := fastfetchLoads + 1;
      } else {
        currentView := Rows;
        toggleLabel := "Fastfetch View";
        visibleChild := Rows;
      }
    }
  }
}
