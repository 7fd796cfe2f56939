/** The SSD1306's graphic RAM behind its two buses, in page addressing mode (section 10.1.3 of the SSD1306
    datasheet): a page pointer, a column pointer that advances with every data byte and returns to column 0
    past the last column, and three commands that set them. */
module OledController {

  const PAGES: nat := 8
  const COLUMNS: nat := 128

  type Row = seq<bv8>
  type Bytes = seq<Row>

  /** `images` laid over row `page` from column `seg` on. */
  function Blit(bytes: Bytes, page: nat, seg: nat, images: Row): Bytes
    requires page < |bytes| && seg + |images| <= |bytes[page]|
  {
    bytes[page := bytes[page][..seg] + images + bytes[page][seg + |images|..]]
  }

  ghost predicate Shaped(bytes: Bytes, pages: nat) {
    |bytes| == pages && forall p :: 0 <= p < pages ==> |bytes[p]| == COLUMNS
  }

  // The three addressing commands: 0x00-0x0F and 0x10-0x1F set the nibbles of the column, 0xB0-0xB7 the page.

  function ColumnAfter(command: nat, column: nat): nat {
    if command < 0x10 then column / 16 * 16 + command
    else if command < 0x20 then (command - 0x10) * 16 + column % 16
    else column
  }

  function PageAfter(command: nat, page: nat): nat {
    if 0xB0 <= command < 0xB8 then command - 0xB0 else page
  }

  /** What the drivers send first: `_seg & 0x0F`, `0x10 + ((_seg >> 4) & 0x0F)`, `0xB0 | _page`. */
  function AddressCommands(page: nat, seg: nat): seq<nat> {
    [seg % 16, 0x10 + seg / 16 % 16, 0xB0 + page]
  }

  function PointersAfter(commands: seq<nat>, page: nat, column: nat): (nat, nat)
    decreases |commands|
  {
    if commands == [] then (page, column)
    else PointersAfter(commands[1..], PageAfter(commands[0], page), ColumnAfter(commands[0], column))
  }

  /** Wherever the pointers were, the three commands set them to the address. */
  lemma AddressSets(page: nat, seg: nat, wasPage: nat, wasColumn: nat)
    requires page < PAGES && seg < COLUMNS
    ensures PointersAfter(AddressCommands(page, seg), wasPage, wasColumn) == (page, seg)
  {
    var cs := AddressCommands(page, seg);
    var c1 := ColumnAfter(cs[0], wasColumn);
    var c2 := ColumnAfter(cs[1], c1);
    assert c1 % 16 == seg % 16;
    assert seg / 16 % 16 == seg / 16;
    assert c2 == seg;
    assert cs[1..] == [cs[1], cs[2]] && cs[1..][1..] == [cs[2]] && cs[1..][1..][1..] == [];
    assert PointersAfter([cs[2]], wasPage, c2) == PointersAfter([], page, c2);
  }

  /** The same, one command at a time. */
  lemma AddressSteps(page: nat, seg: nat, wasPage: nat, wasColumn: nat)
    requires page < PAGES && seg < COLUMNS
    ensures var low, high, target := seg % 16, 0x10 + seg / 16 % 16, 0xB0 + page;
            && ColumnAfter(target, ColumnAfter(high, ColumnAfter(low, wasColumn))) == seg
            && PageAfter(target, PageAfter(high, PageAfter(low, wasPage))) == page
  {
    assert ColumnAfter(seg % 16, wasColumn) % 16 == seg % 16;
  }

  class Controller {
    const ram: array2<bv8>
    var page: nat
    var column: nat

    predicate Valid() {
      ram.Length0 == PAGES && ram.Length1 == COLUMNS
    }

    function Ram(): (r: Bytes)
      requires Valid()
      reads ram
      ensures |r| == PAGES && Shaped(r, PAGES) && Shaped(r, |r|)
    {
      seq(PAGES, p requires 0 <= p < PAGES && Valid() reads ram =>
        seq(COLUMNS, x requires 0 <= p < PAGES && 0 <= x < COLUMNS && Valid() reads ram => ram[p, x]))
    }

    /** Power-on: the RAM's contents are unknown. */
    constructor (ram: array2<bv8>, page: nat, column: nat)
      requires ram.Length0 == PAGES && ram.Length1 == COLUMNS
      ensures Valid() && this.ram == ram
    {
      this.ram, this.page, this.column := ram, page, column;
    }

    /** A command stream. */
    method Commands(commands: seq<nat>)
      requires Valid()
      modifies this`page, this`column
      ensures Valid()
      ensures (page, column) == PointersAfter(commands, old(page), old(column))
    {
      var i := 0;
      assert commands[0..] == commands;
      while i < |commands|
        invariant 0 <= i <= |commands|
        invariant PointersAfter(commands[i..], page, column) == PointersAfter(commands, old(page), old(column))
      {
        assert commands[i..][0] == commands[i] && commands[i..][1..] == commands[i + 1..];
        page, column := PageAfter(commands[i], page), ColumnAfter(commands[i], column);
        i := i + 1;
      }
    }

    /** A data stream that does not run past the last column. */
    method Data(images: Row)
      requires Valid() && page < PAGES && column + |images| <= COLUMNS
      modifies this`column, ram
      ensures Valid()
      ensures Ram() == Blit(old(Ram()), page, old(column), images)
    {
      ghost var was := Ram();
      var start := column;
      for i := 0 to |images|
        invariant Valid()
        invariant column == if i > 0 && start + i == COLUMNS then 0 else start + i
        invariant forall p, x :: 0 <= p < PAGES && 0 <= x < COLUMNS ==>
                    ram[p, x] == if p == page && start <= x < start + i then images[x - start] else was[p][x]
      {
        ram[page, column] := images[i];
        column := if column == COLUMNS - 1 then 0 else column + 1;
      }
      ghost var want := Blit(was, page, start, images);
      assert forall p :: 0 <= p < PAGES ==> Ram()[p] == want[p];
    }

    /** An I2C transaction: the control byte after the address selects what the bytes are. */
    method I2cTransaction(stream: Stream)
      requires Valid()
      requires stream.DataStream? ==> page < PAGES && column + |stream.images| <= COLUMNS
      modifies this`page, this`column, ram
      ensures Valid()
      ensures stream.CommandStream? ==>
                Ram() == old(Ram()) && (page, column) == PointersAfter(stream.commands, old(page), old(column))
      ensures stream.DataStream? ==> Ram() == Blit(old(Ram()), old(page), old(column), stream.images)
    {
      match stream {
        case CommandStream(commands) => Commands(commands);
        case DataStream(images) => Data(images);
      }
    }

    /** An SPI transfer with the D/C# pin low: one command byte. */
    method SpiCommand(command: nat)
      requires Valid()
      modifies this`page, this`column
      ensures Valid()
      ensures page == PageAfter(command, old(page)) && column == ColumnAfter(command, old(column))
    {
      page, column := PageAfter(command, page), ColumnAfter(command, column);
    }

    /** An SPI transfer with the D/C# pin high. */
    method SpiData(images: Row)
      requires Valid() && page < PAGES && column + |images| <= COLUMNS
      modifies this`column, ram
      ensures Valid()
      ensures Ram() == Blit(old(Ram()), page, old(column), images)
    {
      Data(images);
    }
  }

  /** The bytes of an I2C transaction after the address: control byte 0x00, or control byte 0x40. */
  datatype Stream = CommandStream(commands: seq<nat>) | DataStream(images: Row)
}
