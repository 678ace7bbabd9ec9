/** The player record the server keeps: as far as this model goes, a name. */
module Game {

  datatype Player = Player(name: string)
}
