/** The numerals of the two pairing files satisfy the relations the witness theorems assume. */
module PairingConstants {
  import Bn254
  import Bls12
  import Euclid

  // ----- bn254_hint.rs ---------------------------------------------------------------------

  const BN_P: nat := 21888242871839275222246405745257275088696311157297823662689037894645226208583
  const BN_R: nat := 21888242871839275222246405745257275088548364400416034343698204186575808495617
  const BN_X: nat := 4965661367192848881

  const BN_EXP1: nat := 4030969696062745741797811005853058291874379204406359442560681893891674450106959530046539719647151210908190211459382793062006703141168852426020468083171325367934590379984666859998399967609544754664110191464072930598755441160008826659219834762354786403012110463250131961575955268597858015384895449311534622125256548620283853223733396368939858981844663598065852816056384933498610930035891058807598891752166582271931875150099691598048016175399382213304673796601585080509443902692818733420199004555566113537482054218823936116647313678747500267068559627206777530424029211671772692598157901876223857571299238046741502089890557442500582300718504160740314926185458079985126192563953772118929726791041828902047546977272656240744693339962973939047279285351052107950250121751682659529260304162131862468322644288196213423232132152125277136333208005221619443705106431645884840489295409272576227859206166894626854018093044908314720
  const BN_EXP2: nat := 149295173928249842288807815031594751550902933496531831205951181255247201855813315927649619246190785589192230054051214557852100116339587126889646966043382421034614458517950624444385183985538694617189266350521219651805757080000326913304438324531658755667115202342597480058368713651772519088329461085612393412046538837788290860138273939590365147475728281409846400594680923462911515927255224400281440435265428973034513894448136725853630228718495637529802733207466114092942366766400693830377740909465411612499335341437923559875826432546203713595131838044695464089778859691547136762894737106526809539677749557286722299625576201574095640767352005953344997266128077036486155280146436004404804695964512181557316554713802082990544197776406442186936269827816744738898152657469728130713344598597476387715653492155415311971560450078713968012341037230430349766855793764662401499603533676762082513303932107208402000670112774382027
  const BN_R_INV: nat := 495819184011867778744231927046742333492451180917315223017345540833046880485481720031136878341141903241966521818658471092566752321606779256340158678675679238405722886654128392203338228575623261160538734808887996935946888297414610216445334190959815200956855428635568184508263913274453942864817234480763055154719338281461936129150171789463489422401982681230261920147923652438266934726901346095892093443898852488218812468761027620988447655860644584419583586883569984588067403598284748297179498734419889699245081714359110559679136004228878808158639412436468707589339209058958785568729925402190575720856279605832146553573981587948304340677613460685405477047119496887534881410757668344088436651291444274840864486870663164657544390995506448087189408281061890434467956047582679858345583941396130713046072603335601764495918026585155498301896749919393
  const BN_M_INV: nat := 17840267520054779749190587238017784600702972825655245554504342129614427201836516118803396948809179149954197175783449826546445899524065131269177708416982407215963288737761615699967145070776364294542559324079147363363059480104341231360692143673915822421222230661528586799190306058519400019024762424366780736540525310403098758015600523609594113357130678138304964034267260758692953579514899054295817541844330584721967571697039986079722203518034173581264955381924826388858518077894154909963532054519350571947910625755075099598588672669612434444513251495355121627496067454526862754597351094345783576387352673894873931328099247263766690688395096280633426669535619271711975898132416216382905928886703963310231865346128293216316379527200971959980873989485521004596686352787540034457467115536116148612884807380187255514888720048664139404687086409399

  /** The field and the group order are those of a Barreto-Naehrig curve with parameter x. */
  lemma Bn254Parameters()
    ensures BN_P == 36 * Fourth(BN_X) + 36 * Cube(BN_X) + 24 * (BN_X * BN_X) + 6 * BN_X + 1
    ensures BN_R == 36 * Fourth(BN_X) + 36 * Cube(BN_X) + 18 * (BN_X * BN_X) + 6 * BN_X + 1
  {}

  function Cube(x: nat): nat { x * x * x }

  function Fourth(x: nat): nat { x * x * x * x }

  function Twelfth(x: nat): nat { Fourth(x) * Fourth(x) * Fourth(x) }

  /** (p^12 - 1) / r and lambda / (3 r), which the file names only in its comments. */
  const BN_COFACTOR: nat := 552484233613224096312617126783173147097382103762957654188882734314196910839907541213974502761540629817009608548654680343627701153829446747810907373256841551006201639677726139946029199968412598804882391702273019083653272047566316584365559776493027495458238373902875937659943504873220554161550525926302303331747463515644711876653177129578303191095900909191624817826566688241804408081892785725967931714097716709526092261278071952560171111444072049229123565057483750161460024353346284167282452756217662335528813519139808291170539072125381230815729071544861602750936964829313608137325426383735122175229541155376346436093930287402089517426973178917569713384748081827255472576937471496195752727188261435633271238710131736096299798168852925540549342330775279877006784354801422249722573783561685179618816480037695005515426162362431072245638324744480
  const BN_M: nat := 159698392005540947480662681738892913600830203692610128578278487256136045360236842637946308807518740600578730809901535764110456756721301476208843247890119

  /** The constants of the file, and the numbers behind them. */
  function BnConstants<T>(omega: T): Bn254.Constants<T> {
    Bn254.Constants(omega, BN_EXP1, BN_EXP2, BN_R_INV, BN_M_INV)
  }

  function BnNumbers(): Bn254.Numbers { Bn254.Numbers(3 * BN_EXP2 - 1, BN_R, BN_COFACTOR, BN_M) }

  /** The exponents are those of the comments, with N = p^12 - 1, except that mInv inverts m
      modulo N / r and not, as its comment says, modulo N. Both inverses are reduced modulo N / r. */
  lemma Bn254Exponents<T>(omega: T)
    ensures var k, n := BnConstants(omega), BnNumbers();
      && Bn254.Exponents(k, n)
      && n.N() == Twelfth(BN_P) - 1 && n.r == BN_R
      && k.rInv < n.cofactor && k.mInv < n.cofactor
      && n.Lambda() == 6 * BN_X + 2 + BN_P - BN_P * BN_P + BN_P * BN_P * BN_P
      && (BN_M * BN_M_INV) % n.N() != 1
  {}

  // ----- bls12_381_hint.rs -------------------------------------------------------------------

  const BLS_FINAL_EXP_FACTOR: nat := 2366356426548243601069753987687709088104621721678962410379583120840019275952471579477684846670499039076873213559162845121989217658133790336552276567078487633052653005423051750848782286407340332979263075575489766963251914185767058009683318020965829271737924625612375201545022326908440428522712877494557944965298566001441468676802477524234094954960009227631543471415676620753242466901942121887152806837594306028649150255258504417829961387165043999299071444887652375514277477719817175923289019181393803729926249507024121957184340179467502106891835144220611408665090353102353194448552304429530104218473070114105759487413726485729058069746063140422361472585604626055492939586602274983146215294625774144156395553405525711143696689756441298365274341189385646499074862712688473936093315628166094221735056483459332831845007196600723053356837526749543765815988577005929923802636375670820616189737737304893769679803809426304143627363860243558537831172903494450556755190448279875942974830469855835666815454271389438587399739607656399812689280234103023464545891697941661992848552456326290792224091557256350095392859243101357349751064730561345062266850238821755009430903520645523345000326783803935359711318798844368754833295302563158150573540616830138810935344206231367357992991289265295323280
  const BLS_POLY_FACTOR: nat := 5044125407647214251
  const BLS_LAMBDA: nat := 4002409555221667393417789825735904156556882819939007885332058136124031650490837864442687629129030796414117214202539

  /** The field, the group order, and the absolute value of the curve parameter. */
  const BLS_P: nat := 4002409555221667393417789825735904156556882819939007885332058136124031650490837864442687629129015664037894272559787
  const BLS_R: nat := 52435875175126190479447740508185965837690552500527637822603658699938581184513
  const BLS_U: nat := 0xd201000000010000

  /** Bezout coefficients witnessing the two coprimalities. */
  const BLS_X1: int := -2381948109166740063
  const BLS_Y1: int := 30171044438490105913991211716419261992239741587385055611034601622152550421073609048924366059508034739969559850366507424057607594150127130347846532415565640583228175294902011000655959425346571473451896683725517410698903289684735147696256071172358319081740869054828097160633968176709549324240190001658136193314554510323575100249758804242190164815667056524281717313987687746602037030544878089177364295063963944691550110675591237674871588318881495686698798785523711637539459597380425121754924113432686071097855700310619956288624683899342105842341798044717955748044454422314530323024763098192302568178754684694024396100520304784505507692725786567736563193763089522388368488009227981019777133087987292202025912222633365685994229487745720399618209371039995422876762487575518859063767624143436915655886554302532680159363693664446724068142129454211345406296655110306870391449140491100508022716641477771970917752539816081914876693290638339266997361328164254237293082762351739116377755904596454910402798291636263504716174793219501946020498733178457699751497627801613103262382562071655696347589570604553567320313786195391756887489298815356517714580052444530589307885206836030938691693518923509984608573024986538061886275807434790892568039972332377655055254795953056750060849405950976537532531
  const BLS_X2: int := -534715090927620535039260267872958582374268252446355001395446484252416477123930483162067059332838458180276886560628200664984787912210882103408384894313499218102523266693193659690576730841437712432045627944465250396043494868855616557177151896383653510319996984316435983790182289078829172813625719215314987024673422705032648927659181667402668326590991542030544928463762278349845447764975484999070404917013799574524737954225621705364979827862388718735893579253035988372979855124572391301694484967341261304676052327874314950848801913892629603422737957444089764662978919702702284806666985563069167972236826584602968825881778371292673950398131877598687479673557847450725442501194719508832807581890466810838512622766013586144593153184097862238402343611368860010381139373278786482979180843938286319860523150913220007427433869344033217419997819975150381703635867547490239869309362050858517212040052443959851340517256211914315060662183396115850236787568746170256287281125552012560166034641061819628109736176066229173579775891858929917101547482358116704121717930762115680390818320216936815339819394388932444228481756909939033992099491391622921571531698174874810703245780041760462353153424906307773204739449162544062024856089508852863915944106858580005031381228367707115482614109963398055021
  const BLS_Y2: int := 904406777119253764928259225352251407846146297605131715351456734253612639123850742730322589861152968185621889126469

  lemma CoprimeFromBezout(a: nat, b: nat, x: int, y: int)
    requires a * x + b * y == 1
    ensures Euclid.Coprime(a, b)
  {
    assert a == 1 * a && b == 1 * b;
    forall d | Euclid.Divides(d, a) && Euclid.Divides(d, b) ensures Euclid.Divides(d, 1) {
      Euclid.DividesCombination(d, a, x, b, y);
    }
  }

  function BlsFactors(): Bls12.Factors { Bls12.Factors(BLS_FINAL_EXP_FACTOR, BLS_POLY_FACTOR, BLS_LAMBDA) }

  /** The three constants are fixed by the curve, a Barreto-Lynn-Scott one with parameter -u:
      lambda = p + u, poly = (u + 1) / 3, and 27 P poly r = p^12 - 1. */
  lemma Bls12Parameters()
    ensures BLS_R == Fourth(BLS_U) - BLS_U * BLS_U + 1
    ensures 3 * (BLS_P + BLS_U) == (BLS_U + 1) * (BLS_U + 1) * BLS_R
    ensures BLS_LAMBDA == BLS_P + BLS_U
    ensures 3 * BLS_POLY_FACTOR == BLS_U + 1
    ensures 27 * BLS_FINAL_EXP_FACTOR * BLS_POLY_FACTOR * BLS_R == Twelfth(BLS_P) - 1
  {}

  lemma Bls12Relations()
    ensures Bls12.Relations(BlsFactors())
  {
    CoprimeFromBezout(27 * BLS_FINAL_EXP_FACTOR, BLS_POLY_FACTOR, BLS_X1, BLS_Y1);
    CoprimeFromBezout(BLS_LAMBDA, BLS_FINAL_EXP_FACTOR, BLS_X2, BLS_Y2);
  }
}
