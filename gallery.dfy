/**
 * The gallery's lightbox: an optional selected image index that the
 * thumbnails open, the close button and Escape clear, and the arrows (on
 * screen or on the keyboard) move with wrap-around at both ends.
 */
module Gallery {
  import opened Wrappers
  import Modular

  /** `galleryImages.length`: nine pictures. */
  const IMAGE_COUNT: nat := 9

  /** The previous picture: the first wraps to the last. */
  function PrevIndex(i: int, n: nat): (j: int)
    requires 0 <= i < n
    ensures 0 <= j < n
  {
    if i == 0 then n - 1 else i - 1
  }

  /** The next picture: the last wraps to the first. */
  function NextIndex(i: int, n: nat): (j: int)
    requires 0 <= i < n
    ensures 0 <= j < n
  {
    if i == n - 1 then 0 else i + 1
  }

  /** `k` steps forward from `i`. */
  function NextSteps(i: int, n: nat, k: nat): (j: int)
    requires 0 <= i < n
    ensures 0 <= j < n
  {
    if k == 0 then i else NextIndex(NextSteps(i, n, k - 1), n)
  }

  /** The direction argument of `navigateImage`. */
  datatype Direction = Prev | Next

  /** `e.key`, as far as the handler tells keys apart. */
  datatype Key = Escape | ArrowLeft | ArrowRight | OtherKey

  class Lightbox {
    var selectedImage: Option<int>
    var showGallery: bool

    /** An open lightbox shows one of the pictures. */
    predicate Valid()
      reads this
    {
      selectedImage.Some? ==> 0 <= selectedImage.value < IMAGE_COUNT
    }

    constructor ()
      ensures Valid()
      ensures selectedImage == None && !showGallery
    {
      selectedImage := None;
      showGallery := false;
    }

    /** `openLightbox(index)`, called by the thumbnail at `index`. */
    method OpenLightbox(index: int)
      requires Valid() && 0 <= index < IMAGE_COUNT
      modifies this
      ensures Valid()
      ensures selectedImage == Some(index) && showGallery == old(showGallery)
    {
      selectedImage := Some(index);
    }

    /** `closeLightbox`. */
    method CloseLightbox()
      requires Valid()
      modifies this
      ensures Valid()
      ensures selectedImage == None && showGallery == old(showGallery)
    {
      selectedImage := None;
    }

    /** `navigateImage(direction)`: nothing while closed, otherwise one step with wrap-around. */
    method NavigateImage(direction: Direction)
      requires Valid()
      modifies this
      ensures Valid()
      ensures old(selectedImage) == None ==> selectedImage == None
      ensures old(selectedImage).Some? ==>
        selectedImage == Some(if direction == Prev then PrevIndex(old(selectedImage).value, IMAGE_COUNT)
                              else NextIndex(old(selectedImage).value, IMAGE_COUNT))
      ensures showGallery == old(showGallery)
    {
      if selectedImage == None {
        return;
      }
      var i := selectedImage.value;
      if direction == Prev {
        selectedImage := Some(if i == 0 then IMAGE_COUNT - 1 else i - 1);
      } else {
        selectedImage := Some(if i == IMAGE_COUNT - 1 then 0 else i + 1);
      }
    }

    /**
     * `handleKeyPress`: nothing while closed; Escape closes, the left and
     * right arrows step back and forth, any other key does nothing.
     */
    method HandleKeyPress(key: Key)
      requires Valid()
      modifies this
      ensures Valid()
      ensures selectedImage == KeyEffect(old(selectedImage), key)
      ensures showGallery == old(showGallery)
    {
      if selectedImage == None {
        return;
      }
      if key == Escape {
        CloseLightbox();
      }
      if key == ArrowLeft {
        NavigateImage(Prev);
      }
      if key == ArrowRight {
        NavigateImage(Next);
      }
    }

    /** The "Ver Galeria" button (`shown` true) and the close button of the grid (`shown` false). */
    method SetGalleryShown(shown: bool)
      requires Valid()
      modifies this
      ensures Valid()
      ensures showGallery == shown && selectedImage == old(selectedImage)
    {
      showGallery := shown;
    }
  }

  /** The selection after a key press, as a function of the selection before. */
  function KeyEffect(selected: Option<int>, key: Key): (r: Option<int>)
    requires selected.Some? ==> 0 <= selected.value < IMAGE_COUNT
    ensures selected == None ==> r == None
    ensures key == OtherKey ==> r == selected
    ensures r.Some? ==> 0 <= r.value < IMAGE_COUNT
  {
    match selected
    case None => None
    case Some(i) =>
      match key
      case Escape => None
      case ArrowLeft => Some(PrevIndex(i, IMAGE_COUNT))
      case ArrowRight => Some(NextIndex(i, IMAGE_COUNT))
      case OtherKey => selected
  }

  // ---------------------------------------------------------------------
  // Properties

  /** Stepping back then forward, or forward then back, returns to the picture. */
  lemma PrevNextInverse(i: int, n: nat)
    requires 0 <= i < n
    ensures NextIndex(PrevIndex(i, n), n) == i
    ensures PrevIndex(NextIndex(i, n), n) == i
  {
  }

  /** The wrap-around steps are the modular ones. */
  lemma StepsAreModular(i: int, n: nat)
    requires 0 <= i < n
    ensures NextIndex(i, n) == (i + 1) % n
    ensures PrevIndex(i, n) == (i - 1 + n) % n
  {
    if i == n - 1 {
      assert (i + 1) % n == 0;
    } else {
      assert (i + 1) % n == i + 1;
    }
    if i == 0 {
      assert (i - 1 + n) % n == n - 1;
    } else {
      assert (i - 1 + n) % n == i - 1 by {
        assert i - 1 + n == (i - 1) + 1 * n;
      }
    }
  }

  /** `k` steps forward land on `(i + k) mod n`. */
  lemma {:induction false} NextStepsModular(i: int, n: nat, k: nat)
    requires 0 <= i < n
    ensures NextSteps(i, n, k) == (i + k) % n
  {
    if k > 0 {
      NextStepsModular(i, n, k - 1);
      StepFromRemainder(NextSteps(i, n, k - 1), i + k - 1, n);
    }
  }

  /** One step forward from `m mod n` lands on `(m + 1) mod n`. */
  lemma StepFromRemainder(j: int, m: int, n: nat)
    requires 0 <= j < n && j == m % n
    ensures NextIndex(j, n) == (m + 1) % n
  {
    StepsAreModular(j, n);
    Modular.ModSucc(m, n);
  }

  /** Going forward once per picture comes back to the start. */
  lemma FullCircle(i: int, n: nat)
    requires 0 <= i < n
    ensures NextSteps(i, n, n) == i
  {
    NextStepsModular(i, n, n);
    Modular.ModUnique(i + n, 1, i, n);
  }

  /** Left then right, or right then left, is no move; Escape closes. */
  lemma ArrowsCancel(i: int)
    requires 0 <= i < IMAGE_COUNT
    ensures KeyEffect(KeyEffect(Some(i), ArrowLeft), ArrowRight) == Some(i)
    ensures KeyEffect(KeyEffect(Some(i), ArrowRight), ArrowLeft) == Some(i)
    ensures KeyEffect(Some(i), Escape) == None
  {
    PrevNextInverse(i, IMAGE_COUNT);
  }
}
