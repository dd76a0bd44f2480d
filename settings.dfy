/** Board configuration (GameSettings.ts): the size presets, the cell length
    in pixels and the derived pixel length of the whole drawn field. */
module Settings {

  const ExtraSmallField: int := 10
  const SmallField: int := 15
  const MediumField: int := 20
  const LargeField: int := 25

  const CellLength: int := 16

  /** `fieldSize` is the number of cells per side; the other two are pixels. */
  datatype GameSettings = GameSettings(fieldSize: int, cellLength: int, borderThickness: int)

  /** The values a freshly constructed settings object holds. */
  function Default(): GameSettings
  {
    GameSettings(SmallField, CellLength, 3)
  }

  /** `getFieldLength`: every cell plus one border line after it, plus the
      border line before the first cell. */
  function FieldLength(s: GameSettings): int
  {
    s.fieldSize * (s.cellLength + s.borderThickness) + s.borderThickness
  }

  lemma DefaultFieldLength()
    ensures FieldLength(Default()) == 288
  {
  }

  lemma PresetsOrdered()
    ensures ExtraSmallField < SmallField < MediumField < LargeField
  {
  }

  /** A larger field is drawn larger whenever a cell with its border has a
      positive pixel length. */
  lemma FieldLengthMonotone(s: GameSettings, t: GameSettings)
    requires s.cellLength == t.cellLength && s.borderThickness == t.borderThickness
    requires s.cellLength + s.borderThickness > 0
    requires s.fieldSize < t.fieldSize
    ensures FieldLength(s) < FieldLength(t)
  {
  }
}
