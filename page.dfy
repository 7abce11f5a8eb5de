/**
 The state of the portfolio page component: the theme flag, the two contact
 form fields, the cursor of the auto-advancing video embed and the record of
 per-project image cursors, together with the handlers that overwrite them.
 */
module Page {
  import opened Rotation

  /** A showcased project; only the parts the page state depends on. */
  datatype Project = Project(title: string, images: seq<string>)

  /** The fixed project list: one, one and three images. */
  const Projects: seq<Project> := [
    Project("Metaverse UX Project", ["/Meta.png"]),
    Project("Automações De Intefaces, Automação de Tarefas", ["/Sem.png"]),
    Project("Sistema De Brindes Corporativos (Ingressos) ",
            ["/Bid2.png", "/bid3.png", "/placeholder.svg?height=200&width=300"])
  ]

  /** The embedded videos the rotator cycles through. */
  const TiktokVideos: seq<string> := [
    "https://www.tiktok.com/embed/v2/1234567890123456789",
    "https://www.tiktok.com/embed/v2/9876543210987654321"
  ]

  /** `projects[i].images.length`; every gallery is non-empty. */
  function GalleryLen(i: int): (n: int)
    requires 0 <= i < |Projects|
    ensures n > 0
    ensures n == |Projects[i].images|
  {
    |Projects[i].images|
  }

  /** Every entry of the cursor record belongs to a project and points inside
      that project's gallery. */
  predicate InRange(m: map<int, int>)
  {
    forall i :: i in m ==> 0 <= i < |Projects| && 0 <= m[i] < GalleryLen(i)
  }

  /** The image shown for project `i`: `project.images[currentImageIndices[i] || 0]`. */
  function ImageSrc(m: map<int, int>, i: int): (src: string)
    requires InRange(m) && 0 <= i < |Projects|
    ensures src in Projects[i].images
    ensures i !in m ==> src == Projects[i].images[0]
  {
    Projects[i].images[Cur(m, i)]
  }

  /** The embed shown by the video rotator: `tiktokVideos[currentVideoIndex]`. */
  function VideoSrc(v: int): (src: string)
    requires 0 <= v < |TiktokVideos|
    ensures src in TiktokVideos
  {
    TiktokVideos[v]
  }

  /** A click on one of a project's carousel buttons. */
  datatype Click = PrevClick(index: int) | NextClick(index: int)

  /** The buttons are rendered once per project, so every click names one. */
  predicate ValidClicks(cs: seq<Click>)
  {
    forall k :: 0 <= k < |cs| ==> 0 <= cs[k].index < |Projects|
  }

  /** The record after one click, as `handlePrevImage`/`handleNextImage` update it. */
  function Apply(m: map<int, int>, c: Click): (r: map<int, int>)
    requires 0 <= c.index < |Projects|
    ensures InRange(m) ==> InRange(r)
    ensures Cur(r, c.index) == if c.PrevClick?
      then PrevIdx(Cur(m, c.index), GalleryLen(c.index))
      else NextIdx(Cur(m, c.index), GalleryLen(c.index))
    ensures forall j :: j != c.index ==> Cur(r, j) == Cur(m, j)
  {
    match c
    case PrevClick(i) => PrevUpdate(m, i, GalleryLen(i))
    case NextClick(i) => NextUpdate(m, i, GalleryLen(i))
  }

  /** The record after a sequence of clicks, in order. */
  function Run(m: map<int, int>, cs: seq<Click>): (r: map<int, int>)
    requires ValidClicks(cs)
    ensures InRange(m) ==> InRange(r)
    decreases |cs|
  {
    if cs == [] then m else Run(Apply(m, cs[0]), cs[1..])
  }

  /** Whatever the clicks, starting from the empty record the image lookup
      of every project stays inside its gallery. */
  lemma LookupInBounds(cs: seq<Click>, i: int)
    requires ValidClicks(cs) && 0 <= i < |Projects|
    ensures 0 <= Cur(Run(map[], cs), i) < |Projects[i].images|
  {
  }

  /** Galleries with a single image never leave their first image. */
  lemma SingleImageStays(cs: seq<Click>, i: int)
    requires ValidClicks(cs) && 0 <= i < |Projects| && |Projects[i].images| == 1
    ensures Cur(Run(map[], cs), i) == 0
    ensures ImageSrc(Run(map[], cs), i) == Projects[i].images[0]
  {
  }

  /** Clicks on other projects leave project `i`'s cursor alone. */
  lemma {:induction false} OtherClicksIgnored(m: map<int, int>, cs: seq<Click>, i: int)
    requires ValidClicks(cs)
    requires forall k :: 0 <= k < |cs| ==> cs[k].index != i
    ensures Cur(Run(m, cs), i) == Cur(m, i)
    decreases |cs|
  {
    if cs != [] {
      OtherClicksIgnored(Apply(m, cs[0]), cs[1..], i);
    }
  }

  /** The third project: one "previous" click wraps to its last image, then
      two "next" clicks go to the first and then the second. */
  lemma ThirdGalleryScenario()
    ensures Cur(Run(map[], [PrevClick(2)]), 2) == 2
    ensures Cur(Run(map[], [PrevClick(2), NextClick(2)]), 2) == 0
    ensures Cur(Run(map[], [PrevClick(2), NextClick(2), NextClick(2)]), 2) == 1
  {
  }

  /** The video cursor starts at 0 and each tick moves it one step over the
      two embeds: after `k` ticks it is `k mod 2`, so two ticks return it. */
  lemma VideoTicks(k: nat)
    ensures NextN(0, |TiktokVideos|, k) == k % 2
    ensures NextN(0, |TiktokVideos|, k) in {0, 1}
  {
  }

  /** The mutable state cells of the page component. */
  class PageState {
    var darkMode: bool
    var email: string
    var message: string
    var videoIndex: int
    var imageIndices: map<int, int>

    /** Both cursors index their lists. */
    predicate Valid()
      reads this
    {
      0 <= videoIndex < |TiktokVideos| && InRange(imageIndices)
    }

    /** The initial `useState` values: dark theme, empty form, both cursors
        at their start. */
    constructor ()
      ensures Valid()
      ensures darkMode && email == "" && message == ""
      ensures videoIndex == 0 && imageIndices == map[]
    {
      darkMode := true;
      email := "";
      message := "";
      videoIndex := 0;
      imageIndices := map[];
    }

    /** The theme switch: flips the flag and nothing else. */
    method ToggleDark()
      requires Valid()
      modifies this
      ensures Valid()
      ensures darkMode == !old(darkMode)
      ensures email == old(email) && message == old(message)
      ensures videoIndex == old(videoIndex) && imageIndices == old(imageIndices)
    {
      darkMode := !darkMode;
    }

    /** The email field's change handler. */
    method EditEmail(value: string)
      requires Valid()
      modifies this
      ensures Valid()
      ensures email == value
      ensures darkMode == old(darkMode) && message == old(message)
      ensures videoIndex == old(videoIndex) && imageIndices == old(imageIndices)
    {
      email := value;
    }

    /** The message field's change handler. */
    method EditMessage(value: string)
      requires Valid()
      modifies this
      ensures Valid()
      ensures message == value
      ensures darkMode == old(darkMode) && email == old(email)
      ensures videoIndex == old(videoIndex) && imageIndices == old(imageIndices)
    {
      message := value;
    }

    /** Form submission: both fields are cleared, nothing else changes. */
    method Submit()
      requires Valid()
      modifies this
      ensures Valid()
      ensures email == "" && message == ""
      ensures darkMode == old(darkMode)
      ensures videoIndex == old(videoIndex) && imageIndices == old(imageIndices)
    {
      email := "";
      message := "";
    }

    /** One timer tick of the video rotator: `(prev + 1) % tiktokVideos.length`. */
    method Tick()
      requires Valid()
      modifies this
      ensures Valid()
      ensures videoIndex == NextIdx(old(videoIndex), |TiktokVideos|)
      ensures videoIndex == (old(videoIndex) + 1) % |TiktokVideos|
      ensures darkMode == old(darkMode) && email == old(email) && message == old(message)
      ensures imageIndices == old(imageIndices)
    {
      videoIndex := NextIdx(videoIndex, |TiktokVideos|);
    }

    /** `handleNextImage(index)`: the project's cursor steps forward with
        wrap-around; every other project's entry is spread unchanged. */
    method NextImage(index: int)
      requires Valid() && 0 <= index < |Projects|
      modifies this
      ensures Valid()
      ensures imageIndices == NextUpdate(old(imageIndices), index, GalleryLen(index))
      ensures Cur(imageIndices, index) == (Cur(old(imageIndices), index) + 1) % GalleryLen(index)
      ensures forall j :: j != index ==> Cur(imageIndices, j) == Cur(old(imageIndices), j)
      ensures darkMode == old(darkMode) && email == old(email) && message == old(message)
      ensures videoIndex == old(videoIndex)
    {
      imageIndices := Apply(imageIndices, NextClick(index));
    }

    /** `handlePrevImage(index)`: the project's cursor steps back with
        wrap-around; every other project's entry is spread unchanged. */
    method PrevImage(index: int)
      requires Valid() && 0 <= index < |Projects|
      modifies this
      ensures Valid()
      ensures imageIndices == PrevUpdate(old(imageIndices), index, GalleryLen(index))
      ensures Cur(imageIndices, index)
              == (Cur(old(imageIndices), index) - 1 + GalleryLen(index)) % GalleryLen(index)
      ensures forall j :: j != index ==> Cur(imageIndices, j) == Cur(old(imageIndices), j)
      ensures darkMode == old(darkMode) && email == old(email) && message == old(message)
      ensures videoIndex == old(videoIndex)
    {
      imageIndices := Apply(imageIndices, PrevClick(index));
    }

    /** The image currently rendered for project `index`. */
    method CurrentImage(index: int) returns (src: string)
      requires Valid() && 0 <= index < |Projects|
      ensures src == Projects[index].images[Cur(imageIndices, index)]
      ensures src in Projects[index].images
      ensures index !in imageIndices ==> src == Projects[index].images[0]
    {
      src := ImageSrc(imageIndices, index);
    }

    /** The embed currently rendered by the video rotator. */
    method CurrentVideo() returns (src: string)
      requires Valid()
      ensures src == TiktokVideos[videoIndex]
      ensures src in TiktokVideos
    {
      src := VideoSrc(videoIndex);
    }
  }

  /** Two theme toggles restore the theme. */
  method ToggleTwice(p: PageState)
    requires p.Valid()
    modifies p
    ensures p.Valid() && p.darkMode == old(p.darkMode)
    ensures p.email == old(p.email) && p.message == old(p.message)
    ensures p.videoIndex == old(p.videoIndex) && p.imageIndices == old(p.imageIndices)
  {
    p.ToggleDark();
    p.ToggleDark();
  }

  /** A "next" click followed by a "previous" click on the same project
      leaves its image record exactly as it was. */
  method NextThenPrev(p: PageState, index: int)
    requires p.Valid() && 0 <= index < |Projects| && index in p.imageIndices
    modifies p
    ensures p.Valid() && p.imageIndices == old(p.imageIndices)
    ensures p.darkMode == old(p.darkMode) && p.email == old(p.email)
    ensures p.message == old(p.message) && p.videoIndex == old(p.videoIndex)
  {
    UpdatesInverse(p.imageIndices, index, GalleryLen(index));
    p.NextImage(index);
    p.PrevImage(index);
  }
}
