/** The star-rating widget of the review form: a hidden input holding the
    chosen rating and a row of stars valued 1, 2, ... whose "selected" marks
    show either the chosen rating or the one under the pointer. */
module StarRating {

  /** The marks that `setRating(v)` leaves on `n` stars: the star valued
      `i + 1` is selected exactly when `i + 1 <= v`. */
  function Highlight(n: nat, v: int): (marks: seq<bool>)
    ensures |marks| == n
    ensures forall i :: 0 <= i < n ==> (marks[i] <==> i + 1 <= v)
  {
    seq(n, i => i + 1 <= v)
  }

  /** How many stars are selected. */
  function CountSelected(marks: seq<bool>): nat
  {
    if marks == [] then 0
    else CountSelected(marks[..|marks| - 1]) + (if marks[|marks| - 1] then 1 else 0)
  }

  /** `v` clamped to the stars there are. */
  function Clamp(n: nat, v: int): nat
  {
    if v <= 0 then 0 else if v >= n then n else v
  }

  /** After `setRating(v)` exactly `v` stars are selected (none for a value
      below 1, all of them for a value above the last star), and they are the
      first ones. */
  lemma {:induction false} HighlightCount(n: nat, v: int)
    ensures CountSelected(Highlight(n, v)) == Clamp(n, v)
    ensures forall i :: 0 <= i < n ==> (Highlight(n, v)[i] <==> i < Clamp(n, v))
  {
    if n > 0 {
      HighlightCount(n - 1, v);
      assert Highlight(n, v)[..n - 1] == Highlight(n - 1, v);
    }
  }

  class StarWidget {
    /** The hidden input's value, read as a number (an empty value reads as 0). */
    var inputValue: int
    /** `stars[i]` is the "selected" mark of the star valued `i + 1`. */
    const stars: array<bool>

    function Selection(): seq<bool>
      reads this, stars
    {
      stars[..]
    }

    /** The widget starts from markup with no star selected and, when the
        input already holds a value, shows that value. */
    constructor (count: nat, initialValue: int)
      ensures fresh(stars) && stars.Length == count
      ensures inputValue == initialValue
      ensures Selection() == Highlight(count, initialValue)
    {
      inputValue := initialValue;
      stars := new bool[count](_ => false);
      new;
      if initialValue != 0 {
        SetRating(initialValue);
      }
    }

    /** Marks the stars valued at most `v` and unmarks the others. */
    method SetRating(v: int)
      modifies stars
      ensures Selection() == Highlight(stars.Length, v)
    {
      var i := 0;
      while i < stars.Length
        invariant 0 <= i <= stars.Length
        invariant forall k :: 0 <= k < i ==> (stars[k] <==> k + 1 <= v)
      {
        var starValue := i + 1;
        if starValue <= v {
          stars[i] := true;
        } else {
          stars[i] := false;
        }
        i := i + 1;
      }
    }

    /** A click on the star valued `k` stores `k` in the input and shows it. */
    method Click(k: int)
      requires 1 <= k <= stars.Length
      modifies this, stars
      ensures inputValue == k
      ensures Selection() == Highlight(stars.Length, k)
      ensures CountSelected(Selection()) == k
    {
      inputValue := k;
      SetRating(k);
      HighlightCount(stars.Length, k);
    }

    /** Hovering over the star valued `k` shows `k` without touching the input. */
    method MouseOver(k: int)
      requires 1 <= k <= stars.Length
      modifies stars
      ensures inputValue == old(inputValue)
      ensures Selection() == Highlight(stars.Length, k)
      ensures CountSelected(Selection()) == k
    {
      SetRating(k);
      HighlightCount(stars.Length, k);
    }

    /** Leaving a star shows the input's value again, undoing any hover. */
    method MouseOut()
      modifies stars
      ensures inputValue == old(inputValue)
      ensures Selection() == Highlight(stars.Length, inputValue)
    {
      SetRating(inputValue);
    }
  }

  /** Click one star, hover over another, leave it: the selection is back to
      the clicked value. */
  method ClickHoverLeave(w: StarWidget, clicked: int, hovered: int)
    requires 1 <= clicked <= w.stars.Length && 1 <= hovered <= w.stars.Length
    modifies w, w.stars
    ensures w.inputValue == clicked
    ensures w.Selection() == Highlight(w.stars.Length, clicked)
    ensures CountSelected(w.Selection()) == clicked
  {
    w.Click(clicked);
    w.MouseOver(hovered);
    w.MouseOut();
    HighlightCount(w.stars.Length, clicked);
  }
}
