/** The destination table: its name and the fixed column layout of the
    CREATE TABLE statement that both loaders issue. */
module Schema {

  datatype SqlType = Numeric | Text | Integer | Decimal

  datatype Column = Column(name: string, sqlType: SqlType)

  /** The table both loaders write to. */
  const CensusTable: string := "CensusData"

  /** The columns of the CREATE TABLE statement, in order. */
  const CensusColumns: seq<Column> := [
    Column("CensusTract", Numeric),
    Column("State", Text),
    Column("County", Text),
    Column("TotalPop", Integer),
    Column("Men", Integer),
    Column("Women", Integer),
    Column("Hispanic", Decimal),
    Column("White", Decimal),
    Column("Black", Decimal),
    Column("Native", Decimal),
    Column("Asian", Decimal),
    Column("Pacific", Decimal),
    Column("Citizen", Decimal),
    Column("Income", Decimal),
    Column("IncomeErr", Decimal),
    Column("IncomePerCap", Decimal),
    Column("IncomePerCapErr", Decimal),
    Column("Poverty", Decimal),
    Column("ChildPoverty", Decimal),
    Column("Professional", Decimal),
    Column("Service", Decimal),
    Column("Office", Decimal),
    Column("Construction", Decimal),
    Column("Production", Decimal),
    Column("Drive", Decimal),
    Column("Carpool", Decimal),
    Column("Transit", Decimal),
    Column("Walk", Decimal),
    Column("OtherTransp", Decimal),
    Column("WorkAtHome", Decimal),
    Column("MeanCommute", Decimal),
    Column("Employed", Integer),
    Column("PrivateWork", Decimal),
    Column("PublicWork", Decimal),
    Column("SelfEmployed", Decimal),
    Column("FamilyWork", Decimal),
    Column("Unemployment", Decimal)
  ]

  /** The layout has 37 columns; exactly the second and
      third (State and County) are TEXT. */
  lemma CensusColumnsShape()
    ensures |CensusColumns| == 37
    ensures forall i :: 0 <= i < |CensusColumns| ==> (CensusColumns[i].sqlType == Text <==> i == 1 || i == 2)
    ensures CensusColumns[1].name == "State" && CensusColumns[2].name == "County"
  {
  }
}
