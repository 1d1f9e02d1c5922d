/** The three stories of the tour, with the title and image of each slide
    (public/js/storyData.js). The slide descriptions are not transcribed. */
module StoryData {
  import opened Content

  const RightDoor: seq<Slide> := [
    Slide("Nach dem Krieg", "", "rathaus-joto 1.png"),
    Slide("Eine Zäsur", "", "rathaustuer-rechts.webp"),
    Slide("Der Hauptbahnhof", "", "rathaustuer-rechts.webp"),
    Slide("Der Augenarzt", "", "rathaustuer-rechts.webp"),
    Slide("Das Schwimmbad", "", "rathaustuer-rechts.webp"),
    Slide("Mehr als die Türen", "", "treppe 1.jpg")
  ]

  const LeftDoor: seq<Slide> := [
    Slide("Die Rathaus-Türen", "", "Tuer-Links-gross 1.jpg"),
    Slide("Bewegte Vergangenheit", "", "Tuer-Links-gross 1.jpg"),
    Slide(" Stadtansicht", "", "Tuer-Links-gross 1.jpg"),
    Slide("Das Theo", "", "Tuer-Links-gross 1.jpg"),
    Slide("Kaiser trifft Papst", "", "Tuer-Links-gross 1.jpg"),
    Slide("Die Pader im Zentrum", "", "Tuer-Links-gross 1.jpg"),
    Slide("Fehlende Oberlichter", "", "rathaustuer-oberlichter 1.jpg")
  ]

  const FarmerAndCraftsman: seq<Slide> := [
    Slide("Der Handwerker", "", "bauer-und-handwerker.webp"),
    Slide("Kraft und Geschick", "", "bauer-und-handwerker.webp")
  ]
}
