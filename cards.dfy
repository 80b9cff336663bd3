/** The game cards both pages put on screen and then show or hide while the user searches. */
module Cards {
  import opened Common

  /** One card: the title it was built for, the image it shows, and whether it is displayed. */
  class Card {
    const name: string
    const image: Option<string>
    var shown: bool

    constructor (name: string, image: Option<string>)
      ensures this.name == name && this.image == image && shown
    {
      this.name := name;
      this.image := image;
      shown := true;
    }
  }
}
